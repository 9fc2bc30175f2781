/**
 * Garbage collection of state tries while blocks are written: the queue of
 * recent state roots and the trie database behind it (core/blockchain.go,
 * WriteBlockWithState).
 */
module StateRetention {
  import opened TrieCache
  import opened TrieDatabase

  const TRIES_IN_MEMORY := 128

  /** A state root and the number of the block it belongs to. */
  datatype Entry = Entry(root: Hash, number: nat)

  /** A block to write: the trie nodes its execution creates, children first,
      ending in a state root; and what the memory limits and the canonical
      chain say about committing an older state. */
  datatype Block = Block(number: nat, root: Hash, stores: seq<Hash>, commit: bool, oldRoot: Hash)

  function Count(q: seq<Entry>, r: Hash): nat {
    if q == [] then 0 else (if q[0].root == r then 1 else 0) + Count(q[1..], r)
  }

  lemma {:induction false} CountConcat(a: seq<Entry>, b: seq<Entry>, r: Hash)
    ensures Count(a + b, r) == Count(a, r) + Count(b, r)
  {
    if a == [] {
      assert a + b == b;
    } else {
      assert (a + b)[1..] == a[1..] + b;
      CountConcat(a[1..], b, r);
    }
  }

  lemma {:induction false} CountPositive(q: seq<Entry>, e: Entry)
    requires e in q
    ensures Count(q, e.root) >= 1
  {
    if q[0] != e {
      CountPositive(q[1..], e);
    }
  }

  lemma {:induction false} Counted(q: seq<Entry>, r: Hash) returns (e: Entry)
    requires Count(q, r) >= 1
    ensures e in q && e.root == r
  {
    if q[0].root == r {
      e := q[0];
    } else {
      e := Counted(q[1..], r);
    }
  }

  lemma CountWithout(q: seq<Entry>, i: nat, r: Hash)
    requires i < |q|
    ensures Count(q, r) == Count(q[..i] + q[i+1..], r) + (if q[i].root == r then 1 else 0)
  {
    assert q == q[..i] + ([q[i]] + q[i+1..]);
    assert ([q[i]] + q[i+1..])[1..] == q[i+1..];
    CountConcat(q[..i], [q[i]] + q[i+1..], r);
    CountConcat(q[..i], q[i+1..], r);
  }

  /** prque.Pop for the priority -number: an entry with the lowest number. */
  method PopLowest(q: seq<Entry>) returns (e: Entry, rest: seq<Entry>)
    requires q != []
    ensures e in q && forall f :: f in q ==> e.number <= f.number
    ensures forall f :: f in q ==> f == e || f in rest
    ensures forall f :: f in rest ==> f in q
    ensures |rest| == |q| - 1
    ensures forall r :: Count(q, r) == Count(rest, r) + (if e.root == r then 1 else 0)
  {
    var best := 0;
    for i := 0 to |q|
      invariant 0 <= best < |q|
      invariant forall j :: 0 <= j < i ==> q[best].number <= q[j].number
    {
      if q[i].number < q[best].number {
        best := i;
      }
    }
    e, rest := q[best], q[..best] + q[best+1..];
    forall r ensures Count(q, r) == Count(rest, r) + (if e.root == r then 1 else 0) {
      CountWithout(q, best, r);
    }
  }

  class Retention {
    const db: Database
    /** Disabled cache: every state goes to disk at once. */
    const archive: bool
    var triegc: seq<Entry>
    /** The blocks written so far and the highest number among them. */
    ghost var written: set<Entry>
    ghost var highest: nat

    /** Every queue entry holds one reference on its root, as far as the root
        lives in memory only. */
    ghost predicate QueueBacked()
      reads this, db
    {
      && (forall e :: e in triegc ==> e.root != ROOT)
      && (forall r :: r !in db.disk ==> RootRefs(db.nodes, r) == Count(triegc, r))
    }

    ghost predicate Remembered()
      reads this, db
    {
      forall e :: e in written ==>
        && e.number <= highest && e.root != ROOT
        && if archive then e.root in db.disk else e.number + TRIES_IN_MEMORY > highest ==> e in triegc
    }

    ghost predicate Valid()
      reads this, db
    {
      db.Valid() && QueueBacked() && Remembered()
    }

    constructor (db: Database, archive: bool)
      requires db.Valid() && forall r :: RootRefs(db.nodes, r) == 0
      ensures Valid() && this.db == db && this.archive == archive && written == {}
    {
      this.db := db;
      this.archive := archive;
      triegc := [];
      written := {};
      highest := 0;
    }

    /** The states of all blocks above highest - 128 can be read completely,
        on an archive node those of all blocks. */
    ghost predicate RecentComplete()
      reads this, db
    {
      forall e :: e in written && (archive || e.number + TRIES_IN_MEMORY > highest) ==>
        Complete(db.content, db.nodes, db.disk, e.root)
    }

    /** No garbage: everything cached and not on disk is referenced. */
    ghost predicate Lean()
      reads this, db
    {
      Tidy(db.nodes, db.disk, {})
    }

    /** Then everything cached and not on disk belongs to a queued state. */
    lemma LeanIsQueued(h: Hash) returns (e: Entry)
      requires Valid0() && Lean() && h in db.nodes && h != ROOT && h !in db.disk
      ensures e in triegc && IsBelow(db.content, e.root, h)
    {
      var r := TidyIsRooted(db.content, db.nodes, db.disk, h);
      var path :| IsPath(db.content, path) && |path| > 0 && path[0] == r && path[|path|-1] == h;
      if r in db.disk {
        BelowOnDisk(db.content, db.disk, path);
      }
      e := Counted(triegc, r);
    }

    lemma QueuedAvailable(e: Entry)
      requires Valid() && e in triegc
      ensures Available(db.nodes, db.disk, e.root)
    {
      CountPositive(triegc, e);
      if e.root !in db.disk {
        assert RootRefs(db.nodes, e.root) >= 1;
        assert ROOT in db.nodes && e.root in db.nodes[ROOT].children;
      }
    }

    lemma ValidIsComplete()
      requires Valid()
      ensures RecentComplete()
    {
      forall e | e in written && (archive || e.number + TRIES_IN_MEMORY > highest)
        ensures Complete(db.content, db.nodes, db.disk, e.root)
      {
        if !archive {
          QueuedAvailable(e);
        }
        AvailableIsComplete(db.content, db.nodes, db.disk, e.root);
      }
    }

    /** The block's new nodes come children first, and its root is among what
        can be fetched then. */
    predicate Buildable(b: Block)
      reads this, db
    {
      var known := db.nodes.Keys + db.disk.Keys;
      && b.root != ROOT && (b.root in b.stores || b.root in known)
      && (forall h :: h in b.stores ==> h != ROOT)
      && (forall i :: 0 <= i < |b.stores| ==>
            forall k :: k in db.content.kids(b.stores[i]) ==> k in known || k in b.stores[..i])
    }

    /** The new nodes are those of one trie: each is the root or a child of another. */
    ghost predicate IsTrie(b: Block)
      reads this
    {
      forall h :: h in b.stores ==> h == b.root || exists p :: p in b.stores && h in db.content.kids(p)
    }

    method StoreNode(h: Hash)
      requires Valid() && h != ROOT && forall k :: k in db.content.kids(h) ==> Available(db.nodes, db.disk, k)
      modifies db
      ensures Valid() && db.disk == old(db.disk) && db.writesLeft == old(db.writesLeft)
      ensures db.nodes.Keys == old(db.nodes).Keys + {h}
      ensures forall r :: RootRefs(db.nodes, r) == RootRefs(old(db.nodes), r)
      ensures forall q :: q in old(db.nodes) ==> old(db.nodes)[q].children.Keys <= db.nodes[q].children.Keys
    {
      hide Consistent, Acyclic, DiskClosed, CacheSize, RootRefs, Count, Wired;
      ghost var before := db.nodes;
      db.Store(h, db.content.blob(h), db.content.kids(h));
      WiredGrows(before, db.nodes, h, db.content.blob(h), db.content.kids(h));
    }

    /** StateDB.Commit: stores the new nodes in the cache. */
    method Build(b: Block)
      requires Valid() && Buildable(b)
      modifies db
      ensures Valid() && db.disk == old(db.disk) && db.writesLeft == old(db.writesLeft)
      ensures Available(db.nodes, db.disk, b.root)
      ensures db.nodes.Keys == old(db.nodes).Keys + Members(b.stores)
      ensures old(Lean()) && IsTrie(b) ==> Tidy(db.nodes, db.disk, {b.root})
    {
      hide Consistent, Acyclic, DiskClosed, CacheSize, RootRefs, Count, Tidy, Remembered, QueueBacked;
      ghost var known := db.nodes.Keys + db.disk.Keys;
      for i := 0 to |b.stores|
        invariant Valid() && db.disk == old(db.disk) && db.writesLeft == old(db.writesLeft)
        invariant db.nodes.Keys + db.disk.Keys >= known
        invariant db.nodes.Keys == old(db.nodes).Keys + Members(b.stores[..i])
        invariant forall r :: RootRefs(db.nodes, r) == RootRefs(old(db.nodes), r)
        invariant forall h :: h in old(db.nodes) ==> old(db.nodes)[h].children.Keys <= db.nodes[h].children.Keys
      {
        var h := b.stores[i];
        assert h in b.stores;
        StoreNode(h);
        assert b.stores[..i + 1] == b.stores[..i] + [h];
      }
      assert b.stores[..|b.stores|] == b.stores;
      if old(Lean()) && IsTrie(b) {
        TidyAfterBuild(db.content, old(db.nodes), db.nodes, db.disk, Members(b.stores), b.root);
      }
    }

    /** Drops every queued root up to the chosen number. */
    method Collect(chosen: nat)
      requires Valid0()
      modifies this`triegc, db
      ensures Valid0() && db.disk == old(db.disk)
      ensures forall e :: e in triegc <==> e in old(triegc) && e.number > chosen
      ensures old(Lean()) ==> Lean()
      ensures db.writesLeft == old(db.writesLeft)
    {
      hide Consistent, Acyclic, DiskClosed, CacheSize, RootRefs, Count, Tidy, IsReferenced;
      while triegc != []
        invariant Valid0() && db.disk == old(db.disk) && db.writesLeft == old(db.writesLeft)
        invariant old(Lean()) ==> Lean()
        invariant forall e :: e in old(triegc) && e.number > chosen ==> e in triegc
        invariant forall e :: e in triegc ==> e in old(triegc)
        decreases |triegc|
      {
        var e, rest := PopLowest(triegc);
        if e.number > chosen {
          CountAppend(rest, e);
          triegc := rest + [e];
          break;
        }
        Referenced(e);
        triegc := rest;
        db.Dereference(e.root);
      }
    }

    ghost predicate Valid0()
      reads this, db
    {
      db.Valid() && QueueBacked()
    }

    lemma Referenced(e: Entry)
      requires Valid0() && e in triegc
      ensures e.root in db.disk || HasReference(db.nodes, ROOT, e.root)
    {
      CountPositive(triegc, e);
    }

    /** Commits a state. Nothing becomes garbage, and what was excused is no garbage once it is
        on disk. */
    method Persist(root: Hash, ghost except: set<Hash>) returns (ok: bool)
      requires Valid0() && root != ROOT && except <= {root}
      modifies db
      ensures Valid0() && old(db.disk).Keys <= db.disk.Keys
      ensures ok && Available(old(db.nodes), old(db.disk), root) ==> root in db.disk
      ensures !ok ==> db.writesLeft == 0
      ensures forall h :: Available(db.nodes, db.disk, h) <==> Available(old(db.nodes), old(db.disk), h)
      ensures old(Tidy(db.nodes, db.disk, except)) && (except == {} || root in db.disk) ==> Lean()
    {
      hide Consistent, Acyclic, DiskClosed, CacheSize, Count, Tidy;
      ok := db.Commit(root);
      if old(Tidy(db.nodes, db.disk, except)) && (except == {} || root in db.disk) {
        TidyAfterCommit(db.content, old(db.nodes), old(db.disk), db.nodes, db.disk, except);
        NoneExcused(db.nodes, db.disk, except);
      }
    }

    /** WriteBlockWithState as far as it concerns the state tries. */
    method WriteBlock(b: Block) returns (ok: bool)
      requires Valid() && Buildable(b) && b.oldRoot != ROOT
      modifies this, db
      ensures Valid() && RecentComplete()
      ensures ok ==> written == old(written) + {Entry(b.root, b.number)}
      ensures ok ==> highest == if b.number > old(highest) then b.number else old(highest)
      ensures !ok ==> written == old(written) && highest == old(highest)
      ensures ok && archive ==> b.root in db.disk
      ensures !ok ==> archive && db.writesLeft == 0
      ensures archive ==> triegc == old(triegc)
      ensures !archive ==> Queued(old(triegc), b)
      ensures !archive && !(b.commit && b.number > TRIES_IN_MEMORY) ==> db.disk == old(db.disk)
      ensures !archive && b.commit && b.number > TRIES_IN_MEMORY && old(Available(db.nodes, db.disk, b.oldRoot)) ==>
                b.oldRoot in db.disk || db.writesLeft == 0
      ensures ok && old(Lean()) && IsTrie(b) ==> Lean()
    {
      hide Consistent, Acyclic, DiskClosed, CacheSize, RootRefs, Count, Complete, Tidy;
      Build(b);
      if archive {
        ok := Persist(b.root, {b.root});
        if !ok {
          ValidIsComplete();
          return;
        }
      } else {
        Retain(b);
        ok := true;
      }
      written := written + {Entry(b.root, b.number)};
      highest := if b.number > highest then b.number else highest;
      ValidIsComplete();
    }

    /** The state is in the queue, and no queued state is too old. */
    ghost predicate Queued(was: seq<Entry>, b: Block)
      reads this
    {
      forall e :: e in triegc <==>
        && (e in was || e == Entry(b.root, b.number))
        && (b.number > TRIES_IN_MEMORY ==> e.number + TRIES_IN_MEMORY > b.number)
    }

    /** On a full node: the new state is queued, an older one may be committed, and those that
        have become too old are dropped. */
    method Retain(b: Block)
      requires Valid0() && b.root != ROOT && b.oldRoot != ROOT && Available(db.nodes, db.disk, b.root)
      modifies this`triegc, db
      ensures Valid0() && Queued(old(triegc), b) && old(db.disk).Keys <= db.disk.Keys
      ensures !(b.commit && b.number > TRIES_IN_MEMORY) ==> db.disk == old(db.disk)
      ensures b.commit && b.number > TRIES_IN_MEMORY && old(Available(db.nodes, db.disk, b.oldRoot)) ==>
                b.oldRoot in db.disk || db.writesLeft == 0
      ensures old(Tidy(db.nodes, db.disk, {b.root})) ==> Lean()
    {
      hide Consistent, Acyclic, DiskClosed, CacheSize, RootRefs, Count, Tidy;
      Enqueue(b.root, b.number);
      if b.number > TRIES_IN_MEMORY {
        if b.commit {
          var _ := Persist(b.oldRoot, {});
        }
        Collect(b.number - TRIES_IN_MEMORY);
      }
    }

    /** References the root on behalf of its queue entry. */
    method Enqueue(root: Hash, number: nat)
      requires Valid0() && root != ROOT && Available(db.nodes, db.disk, root)
      modifies this`triegc, db
      ensures Valid0() && db.disk == old(db.disk)
      ensures triegc == old(triegc) + [Entry(root, number)] && db.nodes.Keys == old(db.nodes).Keys
      ensures old(Tidy(db.nodes, db.disk, {root})) ==> Lean()
      ensures db.writesLeft == old(db.writesLeft)
    {
      hide Consistent, Acyclic, DiskClosed, CacheSize, Count, Tidy;
      RootCached(db.content, db.nodes, db.disk);
      RootEdge(db.content, db.nodes, db.disk, root);
      if Tidy(db.nodes, db.disk, {root}) {
        TidyAfterReference(db.nodes, db.disk, root);
      }
      db.Reference(root, ROOT, {});
      CountAppend(triegc, Entry(root, number));
      triegc := triegc + [Entry(root, number)];
    }

    /** Any sequence of block writes; blocks whose nodes cannot be built on what
        is there are skipped. */
    method Run(blocks: seq<Block>)
      requires Valid()
      modifies this, db
      ensures Valid() && RecentComplete()
      ensures !archive && old(Lean()) && (forall b :: b in blocks ==> IsTrie(b)) ==> Lean()
    {
      hide Consistent, Tidy, Complete, QueueBacked, Remembered, RecentComplete;
      for i := 0 to |blocks|
        invariant Valid()
        invariant !archive && old(Lean()) && (forall b :: b in blocks ==> IsTrie(b)) ==> Lean()
      {
        if Buildable(blocks[i]) && blocks[i].oldRoot != ROOT {
          var _ := WriteBlock(blocks[i]);
        }
      }
      ValidIsComplete();
    }
  }

  ghost function Members(s: seq<Hash>): set<Hash> {
    set h | h in s
  }

  lemma WiredGrows(before: Nodes, nodes: Nodes, h: Hash, blob: Blob, kids: set<Hash>)
    requires if h in before then Wired(before, nodes, h, kids)
             else Wired(before[h := CachedNode(blob, 0, map[])], nodes, h, kids)
    ensures forall q :: q in before ==> q in nodes && before[q].children.Keys <= nodes[q].children.Keys
  {
  }

  lemma CountAppend(q: seq<Entry>, e: Entry)
    ensures forall r :: Count(q + [e], r) == Count(q, r) + (if e.root == r then 1 else 0)
  {
    forall r ensures Count(q + [e], r) == Count(q, r) + (if e.root == r then 1 else 0) {
      CountConcat(q, [e], r);
      assert Count([e], r) == if e.root == r then 1 else 0;
    }
  }
}
