/**
 * Writing blocks to the chain, core/blockchain.go: fork choice by total difficulty,
 * reorganisation of the number-to-hash index and of the transaction lookup index,
 * and the head markers.
 */
module BlockChain {
  import opened Wrappers
  import opened ChainPath
  import opened TxLookup

  datatype Status = UnknownAncestor | Canonical | Side

  datatype Step = WithState(hash: Hash, coin: bool) | WithoutState(hash: Hash)

  type Difficulties = map<Hash, nat>

  // ----- fork choice -----

  /** No block beats the head: none is heavier, and none as heavy has a lower number. */
  ghost predicate Best(blocks: Blocks, tds: Difficulties, head: Hash) {
    && head in blocks && tds.Keys == blocks.Keys
    && forall h :: h in blocks ==>
         tds[h] < tds[head] || (tds[h] == tds[head] && blocks[h].header.number >= blocks[head].header.number)
  }

  /** Total difficulty is the sum of the difficulties along the path. */
  ghost predicate Summed(blocks: Blocks, tds: Difficulties) {
    && tds.Keys == blocks.Keys
    && forall h :: h in blocks && blocks[h].header.number > 0 && blocks[h].header.parent in tds ==>
         tds[h] == tds[blocks[h].header.parent] + blocks[h].header.difficulty
  }

  /** Whichever way ties of the same number go, the choice leaves the head unbeaten. */
  lemma BestAfter(blocks: Blocks, tds: Difficulties, head: Hash, block: Block, td: nat, wins: bool)
    requires Best(blocks, tds, head)
    requires block.hash in blocks ==> blocks[block.hash] == block && tds[block.hash] == td
    requires var best, number, headNumber := tds[head], block.header.number, blocks[head].header.number;
             && (td > best || (td == best && number < headNumber) ==> wins)
             && (td < best || (td == best && number > headNumber) ==> !wins)
    ensures Best(blocks[block.hash := block], tds[block.hash := td], if wins then block.hash else head)
  {
  }

  // ----- the index -----

  /** At and below the head the index is the head's path. */
  ghost predicate Follows(canonical: Index, path: Index) {
    forall n :: n in path ==> n in canonical && canonical[n] == path[n]
  }

  /** Entries above the head may be left over, but they are blocks of that number. */
  ghost predicate Listed(canonical: Index, blocks: Blocks) {
    forall n :: n in canonical ==> canonical[n] in blocks && blocks[canonical[n]].header.number == n
  }

  /** The index has an entry for every number up to the highest a head has had, and no other. */
  ghost predicate Filled(canonical: Index, highest: nat) {
    forall n :: n in canonical <==> 0 <= n <= highest
  }

  function Max(a: nat, b: nat): nat {
    if a >= b then a else b
  }

  ghost predicate AllFresh(blocks: Blocks, genesis: Hash) {
    Tree(blocks, genesis) && forall h :: h in blocks ==> NoRepeat(blocks, PathOf(blocks, genesis, h))
  }

  /** The blocks of a path from number top down to above bottom. */
  ghost predicate Walked(blocks: Blocks, path: Index, top: nat, bottom: nat, chain: seq<Block>) {
    && bottom <= top && |chain| == top - bottom
    && forall i :: 0 <= i < |chain| ==> IsMember(blocks, path, top - i, chain[i])
  }

  ghost predicate IsMember(blocks: Blocks, path: Index, n: nat, block: Block) {
    n in path && path[n] == block.hash && block.hash in blocks && blocks[block.hash] == block && block.header.number == n
  }

  ghost predicate Collected(blocks: Blocks, path: Index, c: int, m: int, txs: seq<TxHash>) {
    forall t :: t in txs <==> Between(blocks, path, c, m, t)
  }

  lemma CollectedStart(blocks: Blocks, path: Index, m: nat)
    ensures Collected(blocks, path, m, m, [])
  {
  }

  lemma CollectDown(blocks: Blocks, path: Index, n: nat, m: nat, block: Block, txs: seq<TxHash>)
    requires Collected(blocks, path, n, m, txs) && IsMember(blocks, path, n, block) && n <= m
    ensures Collected(blocks, path, n - 1, m, txs + block.txs)
  {
    hide Between;
    forall t ensures t in txs + block.txs <==> Between(blocks, path, n - 1, m, t) {
      BetweenLower(blocks, path, n, m, t);
    }
  }

  lemma CollectUp(blocks: Blocks, path: Index, c: int, n: nat, block: Block, txs: seq<TxHash>)
    requires Collected(blocks, path, c, n - 1, txs) && IsMember(blocks, path, n, block) && c < n
    ensures Collected(blocks, path, c, n, txs + block.txs)
  {
    hide Between;
    forall t ensures t in txs + block.txs <==> Between(blocks, path, c, n, t) {
      BetweenMore(blocks, path, c, n, t);
    }
  }

  ghost function Without(a: seq<TxHash>, b: seq<TxHash>): seq<TxHash> {
    if a == [] then []
    else Without(a[..|a| - 1], b) + if a[|a| - 1] in b then [] else [a[|a| - 1]]
  }

  lemma WalkMore(blocks: Blocks, path: Index, top: nat, n: nat, chain: seq<Block>, block: Block)
    requires Walked(blocks, path, top, n, chain) && IsMember(blocks, path, n, block) && n > 0
    ensures Walked(blocks, path, top, n - 1, chain + [block])
  {
    hide IsMember;
  }

  /** The index has the path's entries above c and up to m, and is otherwise as it was. */
  ghost predicate Spliced(was: Index, now: Index, path: Index, c: nat, m: nat) {
    forall n :: if c < n <= m then n in now && n in path && now[n] == path[n]
                else (n in now <==> n in was) && (n in now ==> now[n] == was[n])
  }

  lemma SplicedFollows(was: Index, now: Index, oldPath: Index, path: Index, c: nat, m: nat)
    requires Spliced(was, now, path, c, m) && Follows(was, oldPath) && Below(oldPath, c) == Below(path, c)
    requires forall n :: n in path <==> 0 <= n <= m
    ensures Follows(now, path)
  {
    forall n | n in path ensures n in now && now[n] == path[n] {
      if n <= c {
        assert n in Below(path, c) && Below(path, c)[n] == path[n];
        assert n in Below(oldPath, c) && Below(oldPath, c)[n] == oldPath[n];
      }
    }
  }

  /** The paths differ above the fork point. */
  ghost predicate Apart(oldPath: Index, newPath: Index, c: nat) {
    forall n :: n in oldPath && n in newPath && n > c ==> oldPath[n] != newPath[n]
  }

  /** types.TxDifference: the transactions of a that are not in b, in order. */
  method TxDifference(a: seq<TxHash>, b: seq<TxHash>) returns (keep: seq<TxHash>)
    ensures keep == Without(a, b) && forall t :: t in keep <==> t in a && t !in b
  {
    keep := [];
    var remove := set t | t in b;
    for i := 0 to |a|
      invariant keep == Without(a[..i], b) && forall t :: t in keep <==> t in a[..i] && t !in b
    {
      assert a[..i + 1][..i] == a[..i];
      assert a[..i + 1] == a[..i] + [a[i]];
      if a[i] !in remove {
        keep := keep + [a[i]];
      }
    }
    assert a[..|a|] == a;
  }

  class Chain {
    const genesis: Hash
    // the database
    var blocks: Blocks
    var tds: Difficulties
    var canonical: Index
    var lookup: Lookup
    // the head markers
    var currentBlock: Hash
    var currentHeader: Hash
    var currentFastBlock: Hash
    ghost var highest: nat // the highest number any head has had

    /** The index at and below the head is the head's path and above it reaches as far as any
        head did, the lookup index holds exactly the transactions of that path, and the three
        head markers agree. */
    ghost predicate Valid()
      reads this
    {
      && AllFresh(blocks, genesis) && Summed(blocks, tds)
      && Best(blocks, tds, currentBlock)
      && currentHeader == currentBlock && currentFastBlock == currentBlock
      && Listed(canonical, blocks)
      && Filled(canonical, highest) && blocks[currentBlock].header.number <= highest
      && Follows(canonical, PathOf(blocks, genesis, currentBlock))
      && Exact(blocks, PathOf(blocks, genesis, currentBlock), lookup)
    }

    constructor (block: Block, td: nat)
      requires block.hash != 0 && block.header.number == 0 && block.txs == []
      ensures Valid() && genesis == block.hash && blocks == map[block.hash := block]
      ensures tds == map[block.hash := td] && currentBlock == block.hash && highest == 0
    {
      genesis := block.hash;
      blocks, tds := map[block.hash := block], map[block.hash := td];
      canonical, lookup := map[0 := block.hash], map[];
      currentBlock, currentHeader, currentFastBlock := block.hash, block.hash, block.hash;
      highest := 0;
    }

    method GetBlock(hash: Hash, number: nat) returns (block: Option<Block>)
      ensures block == if hash in blocks && blocks[hash].header.number == number then Some(blocks[hash]) else None
    {
      if hash in blocks && blocks[hash].header.number == number {
        return Some(blocks[hash]);
      }
      return None;
    }

    method WriteTxLookupEntries(block: Block)
      modifies this`lookup
      ensures Written(block, old(lookup), lookup)
    {
      for i := 0 to |block.txs|
        invariant forall t ::
          if t in block.txs[..i]
          then t in lookup && lookup[t].block == block.hash && lookup[t].number == block.header.number
               && lookup[t].index < i && block.txs[lookup[t].index] == t
          else (t in lookup <==> t in old(lookup)) && (t in old(lookup) ==> lookup[t] == old(lookup)[t])
      {
        assert block.txs[..i + 1] == block.txs[..i] + [block.txs[i]];
        lookup := lookup[block.txs[i] := Entry(block.hash, block.header.number, i)];
      }
      assert block.txs[..|block.txs|] == block.txs;
    }

    /** insert: makes a block the head and enters it into the index; the other head markers
        follow unless the index had the block already. */
    method Insert(block: Block)
      modifies this`canonical, this`currentBlock, this`currentHeader, this`currentFastBlock, this`highest
      ensures canonical == old(canonical)[block.header.number := block.hash] && currentBlock == block.hash
      ensures highest == Max(old(highest), block.header.number)
      ensures if old(block.header.number in canonical && canonical[block.header.number] == block.hash)
              then currentHeader == old(currentHeader) && currentFastBlock == old(currentFastBlock)
              else currentHeader == block.hash && currentFastBlock == block.hash
    {
      var updateHeads := !(block.header.number in canonical && canonical[block.header.number] == block.hash);
      canonical := canonical[block.header.number := block.hash];
      currentBlock := block.hash;
      highest := Max(highest, block.header.number);
      if updateHeads {
        currentHeader := block.hash;
        currentFastBlock := block.hash;
      }
    }

    /** The parts of a path below its top are in the database, also when the top is not yet. */
    ghost predicate Reachable(all: Blocks, top: Hash)
      requires Tree(all, genesis) && top in all
      reads this
    {
      forall n :: n in PathOf(all, genesis, top) && n < all[top].header.number ==>
        PathOf(all, genesis, top)[n] in blocks && PathOf(all, genesis, top)[n] in all
        && blocks[PathOf(all, genesis, top)[n]] == all[PathOf(all, genesis, top)[n]]
    }

    /** Loads the block below a member of a path; it is always there. */
    method Parent(block: Block, ghost all: Blocks, ghost top: Hash) returns (parent: Block)
      requires Tree(all, genesis) && top in all && Reachable(all, top)
      requires block.header.number > 0 && IsMember(all, PathOf(all, genesis, top), block.header.number, block)
      ensures IsMember(all, PathOf(all, genesis, top), block.header.number - 1, parent)
    {
      hide Tree, PathOf;
      PathOfKeys(all, genesis, top);
      PathOfStep(all, genesis, top, block.header.number);
      var up := GetBlock(block.header.parent, block.header.number - 1);
      TreeHash(all, genesis, block.header.parent);
      parent := up.value;
    }

    /** Walks down a path to a number, collecting blocks and transactions on the way. */
    method Descend(block: Block, target: nat, ghost all: Blocks)
      returns (low: Block, chain: seq<Block>, txs: seq<TxHash>)
      requires Tree(all, genesis) && block.hash in all && all[block.hash] == block && Reachable(all, block.hash)
      requires target <= block.header.number
      ensures IsMember(all, PathOf(all, genesis, block.hash), target, low)
      ensures Walked(all, PathOf(all, genesis, block.hash), block.header.number, target, chain)
      ensures Collected(all, PathOf(all, genesis, block.hash), target, block.header.number, txs)
    {
      hide Tree, PathOf, Walked, Collected, Reachable;
      low, chain, txs := block, [], [];
      ghost var path, top := PathOf(all, genesis, block.hash), block.header.number;
      WalkStart(all, genesis, block);
      while low.header.number != target
        invariant target <= low.header.number <= top
        invariant IsMember(all, path, low.header.number, low)
        invariant Walked(all, path, top, low.header.number, chain)
        invariant Collected(all, path, low.header.number, top, txs)
        decreases low.header.number
      {
        WalkMore(all, path, top, low.header.number, chain, low);
        CollectDown(all, path, low.header.number, top, low, txs);
        chain := chain + [low];
        txs := txs + low.txs;
        low := Parent(low, all, block.hash);
      }
    }

    /** First half of reorg: finds the fork point of two chains. */
    method FindFork(oldBlock: Block, newBlock: Block, ghost all: Blocks)
      returns (commonBlock: Block, oldChain: seq<Block>, newChain: seq<Block>, deletedTxs: seq<TxHash>)
      requires Tree(all, genesis)
      requires oldBlock.hash in all && all[oldBlock.hash] == oldBlock && Reachable(all, oldBlock.hash)
      requires newBlock.hash in all && all[newBlock.hash] == newBlock && Reachable(all, newBlock.hash)
      ensures var c := commonBlock.header.number;
              var oldPath, newPath := PathOf(all, genesis, oldBlock.hash), PathOf(all, genesis, newBlock.hash);
              && IsMember(all, oldPath, c, commonBlock) && IsMember(all, newPath, c, commonBlock)
              && Walked(all, oldPath, oldBlock.header.number, c, oldChain)
              && Walked(all, newPath, newBlock.header.number, c, newChain)
              && Collected(all, oldPath, c, oldBlock.header.number, deletedTxs)
              && Below(oldPath, c) == Below(newPath, c) && Apart(oldPath, newPath, c)
    {
      hide Tree, PathOf, Walked, Collected, Reachable, Below;
      ghost var oldPath, newPath := PathOf(all, genesis, oldBlock.hash), PathOf(all, genesis, newBlock.hash);
      ghost var oldTop, newTop := oldBlock.header.number, newBlock.header.number;
      WalkStart(all, genesis, oldBlock);
      WalkStart(all, genesis, newBlock);
      var a, b := oldBlock, newBlock;
      oldChain, newChain, deletedTxs := [], [], [];
      if oldBlock.header.number > newBlock.header.number {
        a, oldChain, deletedTxs := Descend(oldBlock, newBlock.header.number, all);
      } else {
        var txs;
        b, newChain, txs := Descend(newBlock, oldBlock.header.number, all);
      }
      PathsOfMeet(all, genesis, oldBlock.hash, newBlock.hash);
      PathOfKeys(all, genesis, oldBlock.hash);
      PathOfKeys(all, genesis, newBlock.hash);
      while a.hash != b.hash
        invariant a.header.number == b.header.number && a.header.number <= oldTop && a.header.number <= newTop
        invariant IsMember(all, oldPath, a.header.number, a) && IsMember(all, newPath, b.header.number, b)
        invariant Walked(all, oldPath, oldTop, a.header.number, oldChain)
        invariant Walked(all, newPath, newTop, b.header.number, newChain)
        invariant Collected(all, oldPath, a.header.number, oldTop, deletedTxs)
        invariant Apart(oldPath, newPath, a.header.number)
        decreases a.header.number
      {
        WalkMore(all, oldPath, oldTop, a.header.number, oldChain, a);
        WalkMore(all, newPath, newTop, b.header.number, newChain, b);
        CollectDown(all, oldPath, a.header.number, oldTop, a, deletedTxs);
        oldChain, newChain := oldChain + [a], newChain + [b];
        deletedTxs := deletedTxs + a.txs;
        a := Parent(a, all, oldBlock.hash);
        b := Parent(b, all, newBlock.hash);
      }
      commonBlock := a;
      PathsOfAgree(all, genesis, oldBlock.hash, newBlock.hash, a.header.number);
    }

    /** Second half of reorg: makes the blocks of the new chain canonical, lowest first. */
    method Adopt(newChain: seq<Block>, ghost top: nat, ghost c: nat, ghost path: Index, ghost all: Blocks)
      returns (addedTxs: seq<TxHash>)
      requires Walked(all, path, top, c, newChain)
      modifies this`canonical, this`lookup, this`currentBlock, this`currentHeader, this`currentFastBlock, this`highest
      ensures Spliced(old(canonical), canonical, path, c, top)
      ensures highest == if c == top then old(highest) else Max(old(highest), top)
      ensures Relooked(all, path, c, top, old(lookup), lookup)
      ensures Collected(all, path, c, top, addedTxs)
      ensures if c == top then currentBlock == old(currentBlock) else top in path && currentBlock == path[top]
      ensures c < top && !(top in old(canonical) && old(canonical)[top] == path[top]) ==>
                currentHeader == path[top] && currentFastBlock == path[top]
      ensures c == top ==> currentHeader == old(currentHeader) && currentFastBlock == old(currentFastBlock)
    {
      hide IsMember, Relooked, Collected, Written;
      addedTxs := [];
      ghost var was, looked := canonical, lookup;
      RelookedStart(all, path, c, looked);
      CollectedStart(all, path, c);
      for i := |newChain| downto 0
        invariant Spliced(was, canonical, path, c, top - i)
        invariant Relooked(all, path, c, top - i, looked, lookup)
        invariant Collected(all, path, c, top - i, addedTxs)
        invariant highest == if i == |newChain| then old(highest) else Max(old(highest), top - i)
        invariant if i == |newChain|
                  then currentBlock == old(currentBlock) && currentHeader == old(currentHeader)
                       && currentFastBlock == old(currentFastBlock)
                  else top - i in path && currentBlock == path[top - i]
                       && (!(top - i in was && was[top - i] == path[top - i]) ==>
                             currentHeader == path[top - i] && currentFastBlock == path[top - i])
      {
        var block := newChain[i];
        MemberIs(all, path, top - i, block);
        Insert(block);
        ghost var mid := lookup;
        WriteTxLookupEntries(block);
        RelookedMore(all, path, c, block, looked, mid, lookup);
        CollectUp(all, path, c, top - i, block, addedTxs);
        addedTxs := addedTxs + block.txs;
      }
    }

    method DeleteLookups(txs: seq<TxHash>)
      modifies this`lookup
      ensures forall t :: t in lookup <==> t in old(lookup) && t !in txs
      ensures forall t :: t in lookup ==> lookup[t] == old(lookup)[t]
    {
      for i := 0 to |txs|
        invariant forall t :: t in lookup <==> t in old(lookup) && t !in txs[..i]
        invariant forall t :: t in lookup ==> lookup[t] == old(lookup)[t]
      {
        assert txs[..i + 1] == txs[..i] + [txs[i]];
        lookup := lookup - {txs[i]};
      }
      assert txs[..|txs|] == txs;
    }

    /** reorg: moves the indexes from the old head's path to the new head's. */
    method Reorg(oldBlock: Block, newBlock: Block, ghost all: Blocks)
      requires Tree(all, genesis)
      requires oldBlock.hash in all && all[oldBlock.hash] == oldBlock && Reachable(all, oldBlock.hash)
      requires newBlock.hash in all && all[newBlock.hash] == newBlock && Reachable(all, newBlock.hash)
      requires currentBlock == currentHeader == currentFastBlock == oldBlock.hash
      requires Listed(canonical, all) && Follows(canonical, PathOf(all, genesis, oldBlock.hash))
      requires Exact(all, PathOf(all, genesis, oldBlock.hash), lookup) && NoRepeat(all, PathOf(all, genesis, oldBlock.hash))
      requires newBlock.header.number in canonical && canonical[newBlock.header.number] == newBlock.hash ==>
                 newBlock == oldBlock
      requires Filled(canonical, highest) && oldBlock.header.number <= highest
      modifies this`canonical, this`lookup, this`currentBlock, this`currentHeader, this`currentFastBlock, this`highest
      ensures Listed(canonical, all) && Follows(canonical, PathOf(all, genesis, newBlock.hash))
      ensures Filled(canonical, highest) && highest == Max(old(highest), newBlock.header.number)
      ensures Exact(all, PathOf(all, genesis, newBlock.hash), lookup)
      ensures currentBlock == currentHeader == currentFastBlock == newBlock.hash
    {
      hide Tree, PathOf, Walked, Collected, Reachable, Below, Apart, Exact, NoRepeat, Follows, Listed, Spliced;
      hide Relooked, Filled, Reorganised;
      ghost var was := canonical;
      ghost var looked := lookup;
      ghost var oldPath, newPath := PathOf(all, genesis, oldBlock.hash), PathOf(all, genesis, newBlock.hash);
      var commonBlock, oldChain, newChain, deletedTxs := FindFork(oldBlock, newBlock, all);
      ghost var c := commonBlock.header.number;
      PathOfKeys(all, genesis, oldBlock.hash);
      PathOfKeys(all, genesis, newBlock.hash);
      ForkBounds(all, genesis, oldBlock, newBlock, c, oldChain, newChain, was);
      var addedTxs := Adopt(newChain, newBlock.header.number, c, newPath, all);
      SplicedFollows(was, canonical, oldPath, newPath, c, newBlock.header.number);
      SplicedListed(was, canonical, newPath, c, newBlock.header.number, all);
      SplicedFilled(was, canonical, newPath, c, newBlock.header.number, old(highest));
      var diff := TxDifference(deletedTxs, addedTxs);
      ghost var mid := lookup;
      DeleteLookups(diff);
      DiffDeleted(all, oldPath, newPath, c, oldBlock.header.number, newBlock.header.number, looked, mid, lookup,
          deletedTxs, addedTxs, diff);
      ReorganisedIsExact(all, oldPath, newPath, c, oldBlock.header.number, newBlock.header.number, looked, lookup);
    }

    /** What block verification has established: the number follows the parent's, the hash
        stands for no other block, and no transaction of the block is on its chain already. */
    ghost predicate Acceptable(block: Block)
      requires AllFresh(blocks, genesis)
      reads this
    {
      && block.hash != 0
      && (block.hash in blocks ==> blocks[block.hash] == block)
      && (block.header.parent in blocks ==> Fits(blocks, genesis, block))
    }

    /** WriteBlockWithState, without the state. The coin decides between equally heavy
        blocks of the same number. */
    method WriteBlockWithState(block: Block, coin: bool) returns (status: Status)
      requires Valid() && Acceptable(block)
      modifies this
      ensures Valid()
      ensures status == UnknownAncestor <==> block.header.parent !in old(blocks)
      ensures blocks == if status == UnknownAncestor then old(blocks) else old(blocks)[block.hash := block]
      ensures block.header.parent in old(blocks) ==>
                var td, best := old(tds)[block.header.parent] + block.header.difficulty, old(tds)[old(currentBlock)];
                var number, headNumber := block.header.number, old(blocks)[old(currentBlock)].header.number;
                && (td > best ==> status == Canonical) && (td < best ==> status == Side)
                && (td == best && number < headNumber ==> status == Canonical)
                && (td == best && number > headNumber ==> status == Side)
                && (td == best && number == headNumber ==> status == if coin then Canonical else Side)
      ensures currentBlock == if status == Canonical then block.hash else old(currentBlock)
      ensures highest == Max(old(highest), blocks[currentBlock].header.number)
      ensures forall n :: n in canonical <==> n in old(canonical) || 0 <= n <= blocks[currentBlock].header.number
    {
      hide AllFresh, Best, Follows, Listed, Exact, PathOf, Fits, Summed, Tree, Filled;
      Basics(blocks, genesis, tds, currentBlock);
      if block.header.parent !in tds {
        FilledStep(canonical, highest, canonical, highest, blocks[currentBlock].header.number);
        return UnknownAncestor;
      }
      var current := blocks[currentBlock];
      var localTd := tds[currentBlock];
      var externTd := block.header.difficulty + tds[block.header.parent];
      ghost var all := blocks[block.hash := block];
      FreshGrows(blocks, genesis, block, currentBlock);
      SummedGrows(blocks, tds, genesis, block);
      var reorg := externTd > localTd;
      if !reorg && externTd == localTd {
        reorg := block.header.number < current.header.number || (block.header.number == current.header.number && coin);
      }
      BestAfter(blocks, tds, currentBlock, block, externTd, reorg);
      ListedGrows(canonical, blocks, block);
      tds := tds[block.hash := externTd];
      if reorg {
        NotListed(blocks, genesis, old(tds), currentBlock, canonical, block, externTd);
        Relink(current, block, all);
        blocks := blocks[block.hash := block];
        Insert(block);
        status := Canonical;
      } else {
        blocks := blocks[block.hash := block];
        status := Side;
      }
      FilledStep(old(canonical), old(highest), canonical, highest, blocks[currentBlock].header.number);
    }

    /** WriteBlockWithoutState: stores a block that is lighter than the head. */
    method WriteBlockWithoutState(block: Block, td: nat)
      requires Valid() && Acceptable(block) && block.header.parent in blocks && block.header.parent in tds
      requires td == tds[block.header.parent] + block.header.difficulty && td < tds[currentBlock]
      modifies this`blocks, this`tds
      ensures Valid() && blocks == old(blocks)[block.hash := block]
    {
      hide AllFresh, Best, Follows, Listed, Exact, PathOf, Fits, Summed, Tree;
      Basics(blocks, genesis, tds, currentBlock);
      FreshGrows(blocks, genesis, block, currentBlock);
      SummedGrows(blocks, tds, genesis, block);
      BestAfter(blocks, tds, currentBlock, block, td, false);
      ListedGrows(canonical, blocks, block);
      tds := tds[block.hash := td];
      blocks := blocks[block.hash := block];
    }

    /** GetTransaction: finds exactly the transactions of the canonical chain, where they stand. */
    method GetTransaction(t: TxHash) returns (place: Option<Entry>)
      requires Valid()
      ensures place.None? <==> forall n, i :: !At(blocks, PathOf(blocks, genesis, currentBlock), t, n, i)
      ensures place.Some? ==> var e := place.value;
                At(blocks, canonical, t, e.number, e.index) && canonical[e.number] == e.block
                && e.number <= blocks[currentBlock].header.number
      ensures forall n, i :: At(blocks, PathOf(blocks, genesis, currentBlock), t, n, i) ==>
                place.Some? && place.value.number == n && place.value.index == i
    {
      hide PathOf, Tree;
      PathOfKeys(blocks, genesis, currentBlock);
      if t !in lookup {
        return None;
      }
      var entry := lookup[t];
      assert PointsAt(blocks, PathOf(blocks, genesis, currentBlock), t, entry);
      if !(entry.block in blocks && blocks[entry.block].header.number == entry.number && entry.index < |blocks[entry.block].txs|) {
        return None;
      }
      return Some(entry);
    }

    /** Any writes of blocks of a tree, in any order, with or without state, with any coins. */
    method Run(steps: seq<Step>, world: Blocks)
      requires Valid() && AllFresh(world, genesis) && Within(blocks, world) && world[genesis].header.parent == 0
      requires forall i :: 0 <= i < |steps| ==> steps[i].hash in world
      modifies this
      ensures Valid() && Within(blocks, world) && Within(old(blocks), blocks) && highest >= old(highest)
      ensures Within(Taken(world, old(blocks), steps), blocks)
      ensures forall i :: 0 <= i < |steps| && steps[i].WithState? && world[steps[i].hash].header.parent in old(blocks) ==>
                steps[i].hash in blocks
      ensures (forall i :: 0 <= i < |steps| ==> steps[i].WithState?) ==> blocks == Taken(world, old(blocks), steps)
    {
      hide AllFresh, Valid;
      ghost var before := blocks;
      assert steps[..0] == [];
      for i := 0 to |steps|
        invariant Valid() && Within(blocks, world) && Within(before, blocks) && highest >= old(highest)
        invariant Within(Taken(world, before, steps[..i]), blocks)
        invariant forall j :: 0 <= j < i && steps[j].WithState? && world[steps[j].hash].header.parent in before ==>
                    steps[j].hash in blocks
        invariant (forall j :: 0 <= j < i ==> steps[j].WithState?) ==> blocks == Taken(world, before, steps[..i])
      {
        assert steps[..i + 1] == steps[..i] + [steps[i]];
        Offer(steps[i], world);
        TakenStep(world, before, steps[..i], steps[i]);
      }
      assert steps[..|steps|] == steps;
    }

    /** One write of a block of the tree. */
    method Offer(step: Step, world: Blocks)
      requires Valid() && AllFresh(world, genesis) && Within(blocks, world) && world[genesis].header.parent == 0
      requires step.hash in world
      modifies this
      ensures Valid() && Within(blocks, world) && Within(old(blocks), blocks) && highest >= old(highest)
      ensures world[step.hash].hash == step.hash
      ensures step.WithState? ==>
                blocks == if world[step.hash].header.parent in old(blocks)
                          then old(blocks)[step.hash := world[step.hash]] else old(blocks)
    {
      hide AllFresh, Best, Follows, Listed, Exact, PathOf, Fits, Summed, Tree;
      var block := world[step.hash];
      WorldFits(blocks, world, genesis, step.hash);
      match step {
        case WithState(_, coin) =>
          var status := WriteBlockWithState(block, coin);
        case WithoutState(_) =>
          Basics(blocks, genesis, tds, currentBlock);
          if block.header.parent in tds && tds[block.header.parent] + block.header.difficulty < tds[currentBlock] {
            WriteBlockWithoutState(block, tds[block.header.parent] + block.header.difficulty);
          }
      }
    }

    /** Entries are left above the head exactly if some head was higher. */
    lemma LeftAbove()
      requires Valid()
      ensures (exists n :: n in canonical && n > blocks[currentBlock].header.number)
              <==> blocks[currentBlock].header.number < highest
    {
      if blocks[currentBlock].header.number < highest {
        assert highest in canonical;
      }
    }

    /** Moves the indexes to the path of the new head. */
    method Relink(current: Block, block: Block, ghost all: Blocks)
      requires AllFresh(blocks, genesis) && all == blocks[block.hash := block] && AllFresh(all, genesis)
      requires block.hash in blocks ==> blocks[block.hash] == block
      requires currentBlock in blocks && current == blocks[currentBlock] && currentHeader == currentFastBlock == currentBlock
      requires block.header.parent in blocks && block.header.number == blocks[block.header.parent].header.number + 1
      requires Listed(canonical, all) && Follows(canonical, PathOf(all, genesis, currentBlock))
      requires Exact(all, PathOf(all, genesis, currentBlock), lookup)
      requires block.header.number in canonical && canonical[block.header.number] == block.hash ==> block == current
      requires Filled(canonical, highest) && current.header.number <= highest
      modifies this`canonical, this`lookup, this`currentBlock, this`currentHeader, this`currentFastBlock, this`highest
      ensures Filled(canonical[block.header.number := block.hash], Max(highest, block.header.number))
      ensures Max(highest, block.header.number) == Max(old(highest), block.header.number)
      ensures Listed(canonical[block.header.number := block.hash], all)
      ensures Follows(canonical[block.header.number := block.hash], PathOf(all, genesis, block.hash))
      ensures Exact(all, PathOf(all, genesis, block.hash), lookup)
      ensures currentHeader == currentFastBlock == block.hash
              || !(block.header.number in canonical && canonical[block.header.number] == block.hash)
    {
      hide Best, Follows, Listed, Exact, PathOf, Tree, NoRepeat, Written, Reachable, Filled;
      BlockHashes(blocks, all, genesis, currentBlock, current);
      PathOfExtends(all, genesis, block.hash);
      PathOfKeys(all, genesis, currentBlock);
      ghost var newPath := PathOf(all, genesis, block.hash);
      ghost var looked: Lookup;
      if block.header.parent != current.hash {
        StillReachable(all, current.hash, block);
        StillReachable(all, block.hash, block);
        Reorg(current, block, all);
        looked := lookup;
        PathOfKeys(all, genesis, block.hash);
        WriteTxLookupEntries(block);
        WrittenIsExact(all, newPath, newPath, block, looked, lookup);
      } else {
        looked := lookup;
        WriteTxLookupEntries(block);
        WrittenIsExact(all, PathOf(all, genesis, currentBlock), newPath, block, looked, lookup);
      }
      Entered(canonical, PathOf(all, genesis, currentBlock), newPath, block, all);
      EnteredFilled(canonical, highest, block);
    }

    lemma StillReachable(all: Blocks, top: Hash, block: Block)
      requires Tree(blocks, genesis) && Tree(all, genesis) && all == blocks[block.hash := block] && top in all
      requires block.hash in blocks ==> blocks[block.hash] == block
      requires top in blocks || (top == block.hash && block.header.parent in blocks && block.header.number > 0)
      ensures Reachable(all, top)
    {
      hide Tree, PathOf;
      if top in blocks {
        PathOfGrows(blocks, all, genesis, top);
        PathOfKeys(blocks, genesis, top);
      } else {
        PathOfExtends(all, genesis, top);
        PathOfGrows(blocks, all, genesis, block.header.parent);
        PathOfKeys(blocks, genesis, block.header.parent);
      }
    }
  }

  lemma Basics(blocks: Blocks, genesis: Hash, tds: Difficulties, head: Hash)
    requires AllFresh(blocks, genesis) && Best(blocks, tds, head)
    ensures Tree(blocks, genesis) && head in blocks && tds.Keys == blocks.Keys
  {
  }

  /** The blocks that are stored after the given ones have been offered with state: those whose
      parent is stored by then, whatever the coins. */
  ghost function Taken(world: Blocks, blocks: Blocks, steps: seq<Step>): Blocks {
    if steps == [] then blocks
    else
      var before, step := Taken(world, blocks, steps[..|steps| - 1]), steps[|steps| - 1];
      if step.WithState? && step.hash in world && world[step.hash].header.parent in before
      then before[world[step.hash].hash := world[step.hash]] else before
  }

  /** One more block with state is taken exactly if its parent is stored. */
  lemma TakenStep(world: Blocks, blocks: Blocks, steps: seq<Step>, step: Step)
    requires step.hash in world && world[step.hash].hash == step.hash
    ensures Taken(world, blocks, []) == blocks
    ensures var before := Taken(world, blocks, steps);
            Taken(world, blocks, steps + [step])
            == if step.WithState? && world[step.hash].header.parent in before
               then before[step.hash := world[step.hash]] else before
  {
    assert (steps + [step])[..|steps|] == steps;
  }

  ghost predicate Within(blocks: Blocks, world: Blocks) {
    forall h :: h in blocks ==> h in world && world[h] == blocks[h]
  }

  lemma WorldFits(blocks: Blocks, world: Blocks, genesis: Hash, h: Hash)
    requires AllFresh(blocks, genesis) && AllFresh(world, genesis) && Within(blocks, world) && h in world
    requires world[genesis].header.parent == 0
    ensures world[h].hash == h && h != 0 && (h in blocks ==> blocks[h] == world[h])
    ensures world[h].header.parent in blocks ==> Fits(blocks, genesis, world[h])
    ensures Within(blocks[h := world[h]], world) && Within(blocks, blocks[h := world[h]])
  {
    hide PathOf, NoRepeat, Rooted;
    var block := world[h];
    RootedAt(HeadersOf(world), genesis, h);
    if block.header.parent in blocks {
      RootedAt(HeadersOf(blocks), genesis, block.header.parent);
      NewPath(blocks, world, genesis, h);
    }
  }

  lemma NewPath(blocks: Blocks, world: Blocks, genesis: Hash, h: Hash)
    requires Tree(blocks, genesis) && AllFresh(world, genesis) && Within(blocks, world)
    requires h in world && world[h].header.number > 0 && world[h].header.parent in blocks && world[h].hash == h
    ensures Fits(blocks, genesis, world[h])
  {
    hide PathOf, NoRepeat, Rooted, Exact, Tree;
    var block := world[h];
    PathOfExtends(world, genesis, h);
    PathOfGrows(blocks, world, genesis, block.header.parent);
    PathOfKeys(blocks, genesis, block.header.parent);
    ExactGrows(blocks[h := block], world, PathOf(world, genesis, h), map[]);
  }

  lemma TreeHash(blocks: Blocks, genesis: Hash, h: Hash)
    requires Tree(blocks, genesis) && h in blocks
    ensures blocks[h].hash == h
  {
  }

  lemma WalkStart(blocks: Blocks, genesis: Hash, block: Block)
    requires Tree(blocks, genesis) && block.hash in blocks && blocks[block.hash] == block
    ensures var path, top := PathOf(blocks, genesis, block.hash), block.header.number;
            IsMember(blocks, path, top, block) && Walked(blocks, path, top, top, []) && Collected(blocks, path, top, top, [])
  {
    hide PathOf, Tree;
    PathOfKeys(blocks, genesis, block.hash);
  }

  lemma MemberIs(blocks: Blocks, path: Index, n: nat, block: Block)
    requires IsMember(blocks, path, n, block)
    ensures n in path && path[n] == block.hash && block.hash in blocks && blocks[block.hash] == block
            && block.header.number == n
  {
  }

  /** The fork point lies on both chains; it is the new head only if the index had it. */
  lemma ForkBounds(all: Blocks, genesis: Hash, oldBlock: Block, newBlock: Block, c: nat,
                   oldChain: seq<Block>, newChain: seq<Block>, canonical: Index)
    requires Tree(all, genesis) && oldBlock.hash in all && newBlock.hash in all
    requires all[newBlock.hash] == newBlock && all[oldBlock.hash] == oldBlock
    requires Walked(all, PathOf(all, genesis, oldBlock.hash), oldBlock.header.number, c, oldChain)
    requires Walked(all, PathOf(all, genesis, newBlock.hash), newBlock.header.number, c, newChain)
    requires Below(PathOf(all, genesis, oldBlock.hash), c) == Below(PathOf(all, genesis, newBlock.hash), c)
    requires Apart(PathOf(all, genesis, oldBlock.hash), PathOf(all, genesis, newBlock.hash), c)
    requires Follows(canonical, PathOf(all, genesis, oldBlock.hash))
    ensures oldBlock == newBlock ==> c == newBlock.header.number
    ensures c <= oldBlock.header.number && c <= newBlock.header.number
    ensures c == newBlock.header.number ==> c in canonical && canonical[c] == newBlock.hash
  {
    hide Tree, PathOf;
    PathOfKeys(all, genesis, oldBlock.hash);
    PathOfKeys(all, genesis, newBlock.hash);
    var oldPath, newPath := PathOf(all, genesis, oldBlock.hash), PathOf(all, genesis, newBlock.hash);
    assert Below(oldPath, c)[c] == oldPath[c] && Below(newPath, c)[c] == newPath[c];
  }

  lemma SplicedListed(was: Index, now: Index, path: Index, c: nat, m: nat, all: Blocks)
    requires Spliced(was, now, path, c, m) && Listed(was, all)
    requires forall n :: n in path ==> path[n] in all && all[path[n]].header.number == n
    ensures Listed(now, all)
  {
  }

  lemma SplicedFilled(was: Index, now: Index, path: Index, c: nat, m: nat, highest: nat)
    requires Spliced(was, now, path, c, m) && Filled(was, highest) && c <= highest && c <= m
    ensures Filled(now, Max(highest, m))
  {
  }

  lemma DiffDeleted(all: Blocks, oldPath: Index, newPath: Index, c: nat, m: nat, k: nat, was: Lookup, mid: Lookup,
      now: Lookup,
                    deleted: seq<TxHash>, added: seq<TxHash>, diff: seq<TxHash>)
    requires Relooked(all, newPath, c, k, was, mid)
    requires Collected(all, oldPath, c, m, deleted) && Collected(all, newPath, c, k, added)
    requires forall t :: t in diff <==> t in deleted && t !in added
    requires forall t :: t in now <==> t in mid && t !in diff
    requires forall t :: t in now ==> now[t] == mid[t]
    ensures Reorganised(all, oldPath, newPath, c, m, k, was, now)
  {
    hide Between, PointsAt;
  }

  /** A block whose number follows its parent's and whose transactions are new to its chain. */
  ghost predicate Fits(blocks: Blocks, genesis: Hash, block: Block)
    requires Tree(blocks, genesis) && block.header.parent in blocks
  {
    && block.header.number == blocks[block.header.parent].header.number + 1
    && NoRepeat(blocks[block.hash := block], PathOf(blocks, genesis, block.header.parent)[block.header.number := block.hash])
  }

  /** A fitting block leaves the tree in order and the head's path as it was. */
  lemma FreshGrows(blocks: Blocks, genesis: Hash, block: Block, head: Hash)
    requires AllFresh(blocks, genesis) && block.header.parent in blocks && Fits(blocks, genesis, block) && head in blocks
    requires block.hash != 0 && (block.hash in blocks ==> blocks[block.hash] == block)
    ensures var all := blocks[block.hash := block];
            && AllFresh(all, genesis)
            && PathOf(all, genesis, head) == PathOf(blocks, genesis, head)
            && forall lookup :: Exact(all, PathOf(blocks, genesis, head), lookup)
                                <==> Exact(blocks, PathOf(blocks, genesis, head), lookup)
    ensures block.header.number == blocks[block.header.parent].header.number + 1
  {
    hide Tree, PathOf, NoRepeat, Exact;
    var all := blocks[block.hash := block];
    TreeGrows(blocks, genesis, block);
    forall h | h in all ensures NoRepeat(all, PathOf(all, genesis, h)) {
      if h in blocks {
        SamePath(blocks, all, genesis, h);
      } else {
        PathOfExtends(all, genesis, h);
        PathOfGrows(blocks, all, genesis, block.header.parent);
      }
    }
    PathOfGrows(blocks, all, genesis, head);
    PathOfKeys(blocks, genesis, head);
    forall lookup
      ensures Exact(all, PathOf(blocks, genesis, head), lookup) <==> Exact(blocks, PathOf(blocks, genesis, head), lookup)
    {
      ExactGrows(blocks, all, PathOf(blocks, genesis, head), lookup);
    }
  }

  lemma SamePath(blocks: Blocks, all: Blocks, genesis: Hash, h: Hash)
    requires Tree(blocks, genesis) && Tree(all, genesis) && h in blocks
    requires forall k :: k in blocks ==> k in all && all[k] == blocks[k]
    ensures PathOf(all, genesis, h) == PathOf(blocks, genesis, h)
    ensures NoRepeat(all, PathOf(all, genesis, h)) <==> NoRepeat(blocks, PathOf(blocks, genesis, h))
  {
    hide Tree, PathOf, NoRepeat, Exact;
    PathOfGrows(blocks, all, genesis, h);
    PathOfKeys(blocks, genesis, h);
    ExactGrows(blocks, all, PathOf(blocks, genesis, h), map[]);
  }

  lemma SummedGrows(blocks: Blocks, tds: Difficulties, genesis: Hash, block: Block)
    requires Tree(blocks, genesis) && Summed(blocks, tds)
    requires block.header.parent in blocks && block.header.number == blocks[block.header.parent].header.number + 1
    requires block.hash in blocks ==> blocks[block.hash] == block
    ensures var td := block.header.difficulty + tds[block.header.parent];
            && Summed(blocks[block.hash := block], tds[block.hash := td])
            && (block.hash in tds ==> tds[block.hash] == td)
  {
    var td, all := block.header.difficulty + tds[block.header.parent], blocks[block.hash := block];
    forall h | h in all && all[h].header.number > 0 && all[h].header.parent in all
      ensures tds[block.hash := td][h] == tds[block.hash := td][all[h].header.parent] + all[h].header.difficulty
    {
      if h in blocks {
        RootedAt(HeadersOf(blocks), genesis, h);
      }
    }
  }

  lemma ListedGrows(canonical: Index, blocks: Blocks, block: Block)
    requires Listed(canonical, blocks) && (block.hash in blocks ==> blocks[block.hash] == block)
    ensures Listed(canonical, blocks[block.hash := block])
  {
  }

  /** A winning block is not in the index, unless it is the head already. */
  lemma NotListed(blocks: Blocks, genesis: Hash, tds: Difficulties, head: Hash, canonical: Index, block: Block,
      td: nat)
    requires Tree(blocks, genesis) && Best(blocks, tds, head) && Listed(canonical, blocks)
    requires Follows(canonical, PathOf(blocks, genesis, head))
    requires block.hash in blocks ==> blocks[block.hash] == block && tds[block.hash] == td
    requires td > tds[head] || (td == tds[head] && block.header.number <= blocks[head].header.number)
    ensures block.header.number in canonical && canonical[block.header.number] == block.hash ==> block == blocks[head]
  {
    hide Tree, PathOf;
    PathOfKeys(blocks, genesis, head);
  }

  lemma BlockHashes(blocks: Blocks, all: Blocks, genesis: Hash, h: Hash, current: Block)
    requires AllFresh(blocks, genesis) && AllFresh(all, genesis)
    requires h in blocks && blocks[h] == current
    requires forall k :: k in blocks ==> k in all && all[k] == blocks[k]
    ensures current.hash == h && current.hash in all && all[current.hash] == current
    ensures NoRepeat(all, PathOf(all, genesis, current.hash))
  {
  }

  lemma FilledStep(was: Index, before: nat, canonical: Index, highest: nat, number: nat)
    requires Filled(was, before) && Filled(canonical, highest) && highest == Max(before, number)
    ensures forall n :: n in canonical <==> n in was || 0 <= n <= number
  {
  }

  lemma EnteredFilled(canonical: Index, highest: nat, block: Block)
    requires Filled(canonical, highest) && block.header.number <= highest + 1
    ensures Filled(canonical[block.header.number := block.hash], Max(highest, block.header.number))
  {
  }

  lemma Entered(canonical: Index, path: Index, more: Index, block: Block, all: Blocks)
    requires Listed(canonical, all) && block.hash in all && all[block.hash] == block
    requires Follows(canonical, path)
    requires more == path || more == path[block.header.number := block.hash]
    requires block.header.number in more && more[block.header.number] == block.hash
    ensures Listed(canonical[block.header.number := block.hash], all)
    ensures Follows(canonical[block.header.number := block.hash], more)
  {
  }

  /** Two light blocks, then a heavy sibling of the first: the entry of the second is left. */
  method ShorterChainWins() returns (chain: Chain)
    ensures chain.Valid() && chain.currentBlock in chain.blocks
    ensures chain.blocks[chain.currentBlock].header.number == 1 && 2 in chain.canonical
  {
    hide AllFresh, Best, Follows, Listed, Exact, PathOf, Tree, Filled, NoRepeat;
    var genesis := Block(1, Header(0, 0, 0), []);
    var first, second := Block(2, Header(1, 1, 1), []), Block(3, Header(2, 2, 1), []);
    var heavy := Block(4, Header(1, 1, 5), []);
    chain := new Chain(genesis, 0);
    NoTransactions(chain.blocks, chain.genesis, first);
    var status := chain.WriteBlockWithState(first, false);
    NoTransactions(chain.blocks, chain.genesis, second);
    status := chain.WriteBlockWithState(second, false);
    NoTransactions(chain.blocks, chain.genesis, heavy);
    status := chain.WriteBlockWithState(heavy, false);
  }

  lemma NoTransactions(blocks: Blocks, genesis: Hash, block: Block)
    requires AllFresh(blocks, genesis) && block.txs == [] && forall h :: h in blocks ==> blocks[h].txs == []
    ensures Tree(blocks, genesis)
    ensures block.header.parent in blocks && block.header.number == blocks[block.header.parent].header.number + 1 ==>
              Fits(blocks, genesis, block)
  {
  }
}
