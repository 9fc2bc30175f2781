/**
 * The transaction lookup index of the block chain: where every transaction of a
 * path of blocks stands, and what a reorganisation has to change in it.
 */
module TxLookup {
  import opened ChainPath

  type TxHash = nat

  datatype Block = Block(hash: Hash, header: Header, txs: seq<TxHash>)
  type Blocks = map<Hash, Block>

  datatype Entry = Entry(block: Hash, number: nat, index: nat)
  type Lookup = map<TxHash, Entry>

  ghost function HeadersOf(blocks: Blocks): Headers {
    map h | h in blocks :: blocks[h].header
  }

  /** Blocks under their own hashes, each with its ancestors. */
  ghost predicate Tree(blocks: Blocks, genesis: Hash) {
    Rooted(HeadersOf(blocks), genesis) && forall h :: h in blocks ==> blocks[h].hash == h
  }

  ghost function PathOf(blocks: Blocks, genesis: Hash, h: Hash): Index
    requires Tree(blocks, genesis) && h in blocks
  {
    Path(HeadersOf(blocks), genesis, h)
  }

  /** The i-th transaction of the path's n-th block is t. */
  ghost predicate At(blocks: Blocks, path: Index, t: TxHash, n: nat, i: nat) {
    n in path && path[n] in blocks && i < |blocks[path[n]].txs| && blocks[path[n]].txs[i] == t
  }

  /** No transaction stands at two places of the path. */
  ghost predicate NoRepeat(blocks: Blocks, path: Index) {
    forall t, n, i, m, j :: At(blocks, path, t, n, i) && At(blocks, path, t, m, j) ==> n == m && i == j
  }

  ghost predicate PointsAt(blocks: Blocks, path: Index, t: TxHash, entry: Entry) {
    At(blocks, path, t, entry.number, entry.index) && path[entry.number] == entry.block
  }

  /** The index holds exactly the transactions of the path, with their places. */
  ghost predicate Exact(blocks: Blocks, path: Index, lookup: Lookup) {
    && (forall t :: t in lookup ==> PointsAt(blocks, path, t, lookup[t]))
    && (forall t, n, i :: At(blocks, path, t, n, i) ==> t in lookup)
  }

  /** What the index says is what the path says, place by place. */
  lemma ExactPlace(blocks: Blocks, path: Index, lookup: Lookup, t: TxHash, n: nat, i: nat)
    requires Exact(blocks, path, lookup) && NoRepeat(blocks, path)
    ensures At(blocks, path, t, n, i) <==> t in lookup && n in path && lookup[t] == Entry(path[n], n, i)
  {
    if At(blocks, path, t, n, i) {
      assert PointsAt(blocks, path, t, lookup[t]);
    }
  }

  /** The transaction stands in the part of the path above c and up to m. */
  ghost predicate Between(blocks: Blocks, path: Index, c: int, m: int, t: TxHash) {
    exists n: nat, i: nat :: c < n <= m && At(blocks, path, t, n, i)
  }

  /** The entries of one block are written. */
  ghost predicate Written(block: Block, was: Lookup, now: Lookup) {
    forall t ::
      if t in block.txs
      then t in now && now[t].block == block.hash && now[t].number == block.header.number
           && now[t].index < |block.txs| && block.txs[now[t].index] == t
      else (t in now <==> t in was) && (t in was ==> now[t] == was[t])
  }

  /** The entries for the part of the path above c and up to m are written. */
  ghost predicate Relooked(blocks: Blocks, path: Index, c: int, m: int, was: Lookup, now: Lookup) {
    forall t ::
      if Between(blocks, path, c, m, t)
      then t in now && PointsAt(blocks, path, t, now[t])
      else (t in now <==> t in was) && (t in was ==> now[t] == was[t])
  }

  lemma RelookedStart(blocks: Blocks, path: Index, c: int, was: Lookup)
    ensures Relooked(blocks, path, c, c, was, was)
  {
  }

  lemma BetweenMore(blocks: Blocks, path: Index, c: int, m: nat, t: TxHash)
    requires c < m && m in path && path[m] in blocks
    ensures Between(blocks, path, c, m, t) <==> Between(blocks, path, c, m - 1, t) || t in blocks[path[m]].txs
  {
    if t in blocks[path[m]].txs {
      var i :| 0 <= i < |blocks[path[m]].txs| && blocks[path[m]].txs[i] == t;
      assert At(blocks, path, t, m, i);
    }
    if Between(blocks, path, c, m - 1, t) {
      var n: nat, i: nat :| c < n <= m - 1 && At(blocks, path, t, n, i);
      assert c < n <= m && At(blocks, path, t, n, i);
    }
  }

  lemma BetweenLower(blocks: Blocks, path: Index, c: nat, m: int, t: TxHash)
    requires c <= m && c in path && path[c] in blocks
    ensures Between(blocks, path, c - 1, m, t) <==> Between(blocks, path, c, m, t) || t in blocks[path[c]].txs
  {
    if t in blocks[path[c]].txs {
      var i :| 0 <= i < |blocks[path[c]].txs| && blocks[path[c]].txs[i] == t;
      assert At(blocks, path, t, c, i);
    }
    if Between(blocks, path, c, m, t) {
      var n: nat, i: nat :| c < n <= m && At(blocks, path, t, n, i);
      assert c - 1 < n <= m && At(blocks, path, t, n, i);
    }
  }

  lemma WrittenPoints(blocks: Blocks, path: Index, block: Block, was: Lookup, now: Lookup, t: TxHash)
    requires Written(block, was, now) && t in block.txs
    requires block.header.number in path && path[block.header.number] == block.hash
    requires block.hash in blocks && blocks[block.hash] == block
    ensures t in now && PointsAt(blocks, path, t, now[t])
  {
  }

  lemma RelookedMore(blocks: Blocks, path: Index, c: int, block: Block, was: Lookup, mid: Lookup, now: Lookup)
    requires block.header.number in path && path[block.header.number] == block.hash && c < block.header.number
    requires block.hash in blocks && blocks[block.hash] == block
    requires Relooked(blocks, path, c, block.header.number - 1, was, mid) && Written(block, mid, now)
    ensures Relooked(blocks, path, c, block.header.number, was, now)
  {
    hide Between, PointsAt;
    var m := block.header.number;
    forall t ensures if Between(blocks, path, c, m, t)
                     then t in now && PointsAt(blocks, path, t, now[t])
                     else (t in now <==> t in was) && (t in was ==> now[t] == was[t])
    {
      BetweenMore(blocks, path, c, m, t);
      if t in block.txs {
        WrittenPoints(blocks, path, block, mid, now, t);
      }
    }
  }

  /** The index after a reorganisation: entries of the new part written, entries of
      the old part that are not in the new one deleted. */
  ghost predicate Reorganised(blocks: Blocks, oldPath: Index, newPath: Index, c: nat, m: nat, k: nat,
                              was: Lookup, now: Lookup) {
    forall t ::
      if Between(blocks, newPath, c, k, t)
      then t in now && PointsAt(blocks, newPath, t, now[t])
      else (t in now <==> t in was && !Between(blocks, oldPath, c, m, t)) && (t in now ==> now[t] == was[t])
  }

  lemma StandsBelow(blocks: Blocks, oldPath: Index, newPath: Index, c: nat, t: TxHash, n: nat, i: nat)
    requires Below(oldPath, c) == Below(newPath, c) && n <= c
    ensures At(blocks, oldPath, t, n, i) <==> At(blocks, newPath, t, n, i)
    ensures n in oldPath <==> n in newPath
    ensures n in oldPath ==> oldPath[n] == newPath[n]
  {
    assert n in oldPath <==> n in Below(oldPath, c);
    assert n in newPath <==> n in Below(newPath, c);
    assert n in oldPath ==> Below(oldPath, c)[n] == oldPath[n];
    assert n in newPath ==> Below(newPath, c)[n] == newPath[n];
  }

  lemma IsBetween(blocks: Blocks, path: Index, c: int, m: int, t: TxHash, n: nat, i: nat)
    requires At(blocks, path, t, n, i) && c < n <= m
    ensures Between(blocks, path, c, m, t)
  {
  }

  lemma KeptPoints(blocks: Blocks, oldPath: Index, newPath: Index, c: nat, m: nat, was: Lookup, t: TxHash)
    requires Exact(blocks, oldPath, was) && Below(oldPath, c) == Below(newPath, c)
    requires (forall n :: n in oldPath ==> n <= m) && t in was && !Between(blocks, oldPath, c, m, t)
    ensures PointsAt(blocks, newPath, t, was[t])
  {
    var entry := was[t];
    assert PointsAt(blocks, oldPath, t, entry);
    if entry.number > c {
      IsBetween(blocks, oldPath, c, m, t, entry.number, entry.index);
    }
    StandsBelow(blocks, oldPath, newPath, c, t, entry.number, entry.index);
  }

  lemma KeptPlace(blocks: Blocks, oldPath: Index, newPath: Index, c: nat, m: nat, k: nat, was: Lookup, t: TxHash,
      n: nat, i: nat)
    requires Exact(blocks, oldPath, was) && NoRepeat(blocks, oldPath) && Below(oldPath, c) == Below(newPath, c)
    requires (forall n :: n in newPath ==> n <= k) && At(blocks, newPath, t, n, i)
    ensures Between(blocks, newPath, c, k, t) || (t in was && !Between(blocks, oldPath, c, m, t))
  {
    if n > c {
      IsBetween(blocks, newPath, c, k, t, n, i);
    } else {
      StandsBelow(blocks, oldPath, newPath, c, t, n, i);
      assert forall p, j :: At(blocks, oldPath, t, p, j) ==> p == n;
    }
  }

  /** A reorganisation turns the exact index of one path into that of the other. */
  lemma ReorganisedIsExact(blocks: Blocks, oldPath: Index, newPath: Index, c: nat, m: nat, k: nat, was: Lookup, now: Lookup)
    requires Exact(blocks, oldPath, was) && NoRepeat(blocks, oldPath) && Below(oldPath, c) == Below(newPath, c)
    requires (forall n :: n in oldPath ==> n <= m) && (forall n :: n in newPath ==> n <= k)
    requires Reorganised(blocks, oldPath, newPath, c, m, k, was, now)
    ensures Exact(blocks, newPath, now)
  {
    hide Between, At, NoRepeat, PointsAt, Below;
    forall t | t in now ensures PointsAt(blocks, newPath, t, now[t]) {
      if !Between(blocks, newPath, c, k, t) {
        KeptPoints(blocks, oldPath, newPath, c, m, was, t);
      }
    }
    forall t, n, i | At(blocks, newPath, t, n, i) ensures t in now {
      KeptPlace(blocks, oldPath, newPath, c, m, k, was, t, n, i);
    }
  }

  /** Writing the entries of the block on top of the path, or of one already in it. */
  lemma WrittenIsExact(blocks: Blocks, path: Index, more: Index, block: Block, was: Lookup, now: Lookup)
    requires Exact(blocks, path, was) && Written(block, was, now)
    requires block.hash in blocks && blocks[block.hash] == block && more == path[block.header.number := block.hash]
    requires block.header.number in path ==> path[block.header.number] == block.hash
    ensures Exact(blocks, more, now)
  {
    forall t | t in now ensures PointsAt(blocks, more, t, now[t]) {
      if t in block.txs {
        WrittenPoints(blocks, more, block, was, now, t);
      } else {
        assert PointsAt(blocks, path, t, was[t]);
      }
    }
    forall t, n, i | At(blocks, more, t, n, i) ensures t in now {
      if n != block.header.number {
        assert At(blocks, path, t, n, i);
      }
    }
  }

  // ----- paths of blocks -----

  lemma PathOfKeys(blocks: Blocks, genesis: Hash, h: Hash)
    requires Tree(blocks, genesis) && h in blocks
    ensures var path := PathOf(blocks, genesis, h);
            && (forall n :: n in path <==> 0 <= n <= blocks[h].header.number)
            && path[blocks[h].header.number] == h
            && forall n :: n in path ==> path[n] in blocks && blocks[path[n]].header.number == n
  {
    hide Path, Rooted;
    PathKeys(HeadersOf(blocks), genesis, h);
  }

  lemma PathOfStep(blocks: Blocks, genesis: Hash, h: Hash, n: nat)
    requires Tree(blocks, genesis) && h in blocks && 0 < n <= blocks[h].header.number
    ensures var path := PathOf(blocks, genesis, h);
            n in path && n - 1 in path && path[n] in blocks && blocks[path[n]].header.parent == path[n - 1]
  {
    hide Path, Rooted;
    PathStep(HeadersOf(blocks), genesis, h, n);
  }

  lemma PathsOfAgree(blocks: Blocks, genesis: Hash, a: Hash, b: Hash, n: nat)
    requires Tree(blocks, genesis) && a in blocks && b in blocks
    requires n <= blocks[a].header.number && n <= blocks[b].header.number
    requires n in PathOf(blocks, genesis, a) && n in PathOf(blocks, genesis, b)
    requires PathOf(blocks, genesis, a)[n] == PathOf(blocks, genesis, b)[n]
    ensures Below(PathOf(blocks, genesis, a), n) == Below(PathOf(blocks, genesis, b), n)
  {
    hide Path, Rooted;
    PathsAgree(HeadersOf(blocks), genesis, a, b, n);
  }

  /** All paths start at the genesis block. */
  lemma PathsOfMeet(blocks: Blocks, genesis: Hash, a: Hash, b: Hash)
    requires Tree(blocks, genesis) && a in blocks && b in blocks
    ensures 0 in PathOf(blocks, genesis, a) && 0 in PathOf(blocks, genesis, b)
    ensures PathOf(blocks, genesis, a)[0] == PathOf(blocks, genesis, b)[0] == genesis
  {
    hide Path, Rooted;
    PathOfKeys(blocks, genesis, a);
    PathOfKeys(blocks, genesis, b);
    RootedAt(HeadersOf(blocks), genesis, PathOf(blocks, genesis, a)[0]);
    RootedAt(HeadersOf(blocks), genesis, PathOf(blocks, genesis, b)[0]);
  }

  lemma PathOfGrows(blocks: Blocks, more: Blocks, genesis: Hash, h: Hash)
    requires Tree(blocks, genesis) && Tree(more, genesis) && h in blocks
    requires forall k :: k in blocks ==> k in more && more[k] == blocks[k]
    ensures PathOf(more, genesis, h) == PathOf(blocks, genesis, h)
  {
    hide Path, Rooted;
    PathGrows(HeadersOf(blocks), HeadersOf(more), genesis, h);
  }

  lemma PathOfExtends(blocks: Blocks, genesis: Hash, h: Hash)
    requires Tree(blocks, genesis) && h in blocks && blocks[h].header.number > 0
    ensures blocks[h].header.parent in blocks && blocks[blocks[h].header.parent].header.number + 1 == blocks[h].header.number
    ensures PathOf(blocks, genesis, h) == PathOf(blocks, genesis, blocks[h].header.parent)[blocks[h].header.number := h]
  {
    hide Path, Rooted;
    PathExtends(HeadersOf(blocks), genesis, h);
  }

  lemma TreeGrows(blocks: Blocks, genesis: Hash, block: Block)
    requires Tree(blocks, genesis) && block.hash != 0 && (block.hash in blocks ==> blocks[block.hash] == block)
    requires block.header.parent in blocks && blocks[block.header.parent].header.number + 1 == block.header.number
    ensures Tree(blocks[block.hash := block], genesis)
  {
    hide Rooted;
    RootedGrows(HeadersOf(blocks), genesis, block.hash, block.header);
    assert HeadersOf(blocks[block.hash := block]) == HeadersOf(blocks)[block.hash := block.header];
  }

  /** Places on a path do not depend on blocks off it. */
  lemma AtGrows(blocks: Blocks, more: Blocks, path: Index)
    requires forall k :: k in blocks ==> k in more && more[k] == blocks[k]
    requires forall n :: n in path ==> path[n] in blocks
    ensures forall t, n, i :: At(more, path, t, n, i) <==> At(blocks, path, t, n, i)
  {
  }

  lemma ExactGrows(blocks: Blocks, more: Blocks, path: Index, lookup: Lookup)
    requires forall k :: k in blocks ==> k in more && more[k] == blocks[k]
    requires forall n :: n in path ==> path[n] in blocks
    ensures Exact(more, path, lookup) <==> Exact(blocks, path, lookup)
    ensures NoRepeat(more, path) <==> NoRepeat(blocks, path)
  {
    hide At;
    AtGrows(blocks, more, path);
  }
}
