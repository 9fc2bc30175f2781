/**
 * The price heap of the transaction pool, core/tx_list.go: a heap ordered by
 * gas price that may hold entries for transactions that have left the pool.
 * Entries go stale when the pool drops a transaction and are skipped when they
 * surface; the heap is rebuilt when too many are counted. A transaction that
 * left and came back may have several entries.
 */
module TxPricedList {
  import Heap
  import opened TxItems

  type Pool = map<nat, Tx>

  function Price(): Tx -> int {
    (tx: Tx) => tx.price
  }

  /** Every transaction is filed under its hash. */
  ghost predicate ByHash(all: Pool) {
    forall h :: h in all ==> all[h].hash == h
  }

  /** A hash names one transaction. */
  ghost predicate Agree(all: Pool, entries: multiset<Tx>) {
    forall tx :: tx in entries && tx.hash in all ==> all[tx.hash] == tx
  }

  /** Every pooled transaction has an entry, apart from those in out. */
  ghost predicate Covered(all: Pool, entries: multiset<Tx>, out: seq<Tx>) {
    forall h :: h in all ==> all[h] in entries || all[h] in out
  }

  ghost predicate AllStale(all: Pool, entries: multiset<Tx>) {
    forall tx :: tx in entries ==> tx.hash !in all
  }

  /** What was taken off the heap: the transactions out, and stale entries. */
  ghost predicate TakenOff(all: Pool, before: multiset<Tx>, after: multiset<Tx>, out: multiset<Tx>) {
    && after + out <= before
    && forall tx :: tx in before && tx.hash in all ==> before[tx] == after[tx] + out[tx]
  }

  ghost predicate IsPooledRemote(all: Pool, locals: set<Address>, tx: Tx) {
    tx.hash in all && all[tx.hash] == tx && tx.sender !in locals
  }

  // ----- the heap's loops, on values -----

  /** The state of a sweep: what is still on the heap, what was set aside to be put
      back, what was dropped and which stale entries are gone. */
  ghost predicate Sweep(all: Pool, before: multiset<Tx>, rest: multiset<Tx>,
                        save: seq<Tx>, drop: seq<Tx>, gone: multiset<Tx>) {
    before == rest + multiset(save) + multiset(drop) + gone && AllStale(all, gone)
  }

  /** One entry leaves the heap. */
  ghost predicate Minus(rest: multiset<Tx>, rest': multiset<Tx>, tx: Tx) {
    rest == rest' + multiset{tx}
  }

  lemma SweepSave(all: Pool, before: multiset<Tx>, rest: multiset<Tx>, rest': multiset<Tx>,
                  save: seq<Tx>, drop: seq<Tx>, gone: multiset<Tx>, tx: Tx)
    requires Sweep(all, before, rest, save, drop, gone) && Minus(rest, rest', tx)
    ensures Sweep(all, before, rest', save + [tx], drop, gone)
  {
  }

  lemma SweepDrop(all: Pool, before: multiset<Tx>, rest: multiset<Tx>, rest': multiset<Tx>,
                  save: seq<Tx>, drop: seq<Tx>, gone: multiset<Tx>, tx: Tx)
    requires Sweep(all, before, rest, save, drop, gone) && Minus(rest, rest', tx)
    ensures Sweep(all, before, rest', save, drop + [tx], gone)
  {
  }

  lemma SweepStale(all: Pool, before: multiset<Tx>, rest: multiset<Tx>, rest': multiset<Tx>,
                   save: seq<Tx>, drop: seq<Tx>, gone: multiset<Tx>, tx: Tx) returns (gone': multiset<Tx>)
    requires Sweep(all, before, rest, save, drop, gone) && Minus(rest, rest', tx)
    requires tx.hash !in all
    ensures Sweep(all, before, rest', save, drop, gone') && |gone'| == |gone| + 1
  {
    gone' := gone + multiset{tx};
  }

  lemma SweepDone(all: Pool, before: multiset<Tx>, rest: multiset<Tx>,
                  save: seq<Tx>, drop: seq<Tx>, gone: multiset<Tx>, out: seq<Tx>)
    requires Sweep(all, before, rest, save, drop, gone)
    requires ByHash(all) && Agree(all, before) && Covered(all, before, out)
    ensures var after := rest + multiset(save);
            && TakenOff(all, before, after, multiset(drop))
            && Agree(all, after) && Covered(all, after, out + drop)
            && |after| + |drop| + |gone| == |before|
  {
    var after := rest + multiset(save);
    forall h | h in all ensures all[h] in after || all[h] in out + drop {
      var tx := all[h];
      assert tx !in gone;
      assert tx in before || tx in out;
    }
  }

  ghost predicate Spared(locals: set<Address>, bound: int, save: seq<Tx>) {
    forall x :: x in save ==> x.price >= bound || x.sender in locals
  }

  ghost predicate Dropped(all: Pool, locals: set<Address>, bound: int, drop: seq<Tx>) {
    forall x :: x in drop ==> IsPooledRemote(all, locals, x) && x.price < bound
  }

  ghost predicate NoneBelow(rest: multiset<Tx>, bound: int) {
    forall x :: x in rest ==> x.price >= bound
  }

  lemma SpareMore(locals: set<Address>, bound: int, save: seq<Tx>, tx: Tx)
    requires Spared(locals, bound, save) && (tx.price >= bound || tx.sender in locals)
    ensures Spared(locals, bound, save + [tx])
  {
  }

  lemma DropMore(all: Pool, locals: set<Address>, bound: int, drop: seq<Tx>, tx: Tx)
    requires Dropped(all, locals, bound, drop) && IsPooledRemote(all, locals, tx) && tx.price < bound
    ensures Dropped(all, locals, bound, drop + [tx])
  {
  }

  lemma NothingOut(all: Pool, locals: set<Address>, bound: int)
    ensures Spared(locals, bound, []) && Dropped(all, locals, bound, [])
  {
  }

  lemma SweepStart(all: Pool, before: multiset<Tx>)
    ensures Sweep(all, before, before, [], [], multiset{})
  {
  }

  lemma SweepAgrees(all: Pool, before: multiset<Tx>, rest: multiset<Tx>,
                    save: seq<Tx>, drop: seq<Tx>, gone: multiset<Tx>, tx: Tx)
    requires Sweep(all, before, rest, save, drop, gone) && Agree(all, before)
    requires tx in rest && tx.hash in all
    ensures all[tx.hash] == tx
  {
    assert tx in before;
  }

  lemma FoundAll(all: Pool, before: multiset<Tx>, rest: multiset<Tx>, save: seq<Tx>, drop: seq<Tx>,
                 gone: multiset<Tx>, locals: set<Address>, bound: int)
    requires Sweep(all, before, rest, save, drop, gone) && Covered(all, before, [])
    requires NoneBelow(rest, bound) && Spared(locals, bound, save) && Dropped(all, locals, bound, drop)
    ensures forall tx :: tx in drop <==> IsPooledRemote(all, locals, tx) && tx.price < bound
  {
    forall tx | IsPooledRemote(all, locals, tx) && tx.price < bound ensures tx in drop {
      assert tx in before;
      assert tx !in multiset(save);
      assert tx in multiset(drop);
    }
  }

  // ----- the pool as a bag of entries -----

  ghost function Entries(all: Pool): multiset<Tx> {
    multiset(all.Values)
  }

  lemma EntriesAdd(done: Pool, h: nat, tx: Tx)
    requires ByHash(done) && h !in done && tx.hash == h
    ensures Entries(done[h := tx]) == Entries(done) + multiset{tx} && ByHash(done[h := tx])
  {
    assert tx !in done.Values;
    var more := done[h := tx];
    assert more.Values == done.Values + {tx} by {
      assert forall k :: k in done ==> more[k] == done[k];
      assert more[h] == tx;
    }
  }

  lemma RebuiltCovers(all: Pool, out: seq<Tx>)
    requires ByHash(all)
    ensures Agree(all, Entries(all)) && Covered(all, Entries(all), out)
  {
  }

  ghost function Hashes(txs: seq<Tx>): set<nat> {
    set tx | tx in txs :: tx.hash
  }

  lemma WithoutTx(all: Pool, entries: multiset<Tx>, hash: nat, out: seq<Tx>)
    requires ByHash(all) && Agree(all, entries) && Covered(all, entries, out)
    ensures ByHash(all - {hash}) && Agree(all - {hash}, entries) && Covered(all - {hash}, entries, out)
  {
  }

  lemma HashesStart(all: Pool, drop: seq<Tx>)
    ensures all - Hashes(drop[..0]) == all && drop[0..] == drop
  {
    assert Hashes([]) == {};
  }

  lemma HashesStep(all: Pool, entries: multiset<Tx>, drop: seq<Tx>, i: nat)
    requires i < |drop|
    ensures all - Hashes(drop[..i]) - {drop[i].hash} == all - Hashes(drop[..i + 1])
    ensures var left := all - Hashes(drop[..i + 1]);
            ByHash(left) && Covered(left, entries, drop[i..]) ==> Covered(left, entries, drop[i + 1..])
  {
    assert drop[..i + 1] == drop[..i] + [drop[i]];
    assert Hashes(drop[..i + 1]) == Hashes(drop[..i]) + {drop[i].hash};
    var left := all - Hashes(drop[..i + 1]);
    assert forall x :: x in drop[i..] ==> x == drop[i] || x in drop[i + 1..];
    assert drop[i].hash !in left;
  }

  lemma PutCovers(all: Pool, entries: multiset<Tx>, tx: Tx)
    requires ByHash(all) && Covered(all, entries, []) && Agree(all[tx.hash := tx], entries)
    ensures ByHash(all[tx.hash := tx]) && Agree(all[tx.hash := tx], entries + multiset{tx})
    ensures Covered(all[tx.hash := tx], entries + multiset{tx}, [])
  {
    var more := entries + multiset{tx};
    var pooled := all[tx.hash := tx];
    forall h | h in pooled ensures pooled[h] in more {
      assert h != tx.hash ==> all[h] in entries;
    }
  }

  class PricedList {
    var all: Pool
    var items: seq<Tx>
    var stales: int

    /** The heap is usable, and misses no pooled transaction apart from those in out,
        which the pool is about to remove. */
    ghost predicate Holds(out: seq<Tx>)
      reads this
    {
      && Heap.IsHeap(items, Price())
      && ByHash(all)
      && Agree(all, multiset(items))
      && Covered(all, multiset(items), out)
    }

    ghost predicate Valid()
      reads this
    {
      Holds([])
    }

    constructor ()
      ensures Valid() && all == map[] && items == [] && stales == 0
    {
      all, items, stales := map[], [], 0;
    }

    /** The pool takes a transaction in and puts it on the heap. The same hash
        always stands for the same transaction. */
    method Put(tx: Tx)
      requires Valid()
      requires Agree(all[tx.hash := tx], multiset(items))
      modifies this
      ensures Valid() && all == old(all)[tx.hash := tx] && stales == old(stales)
      ensures multiset(items) == old(multiset(items)) + multiset{tx}
    {
      hide Heap.IsHeap, ByHash, Agree, Covered;
      PutCovers(all, multiset(items), tx);
      all := all[tx.hash := tx];
      items := Heap.Push(items, tx, Price());
    }

    /** Removed: counts a stale entry; rebuilds the heap from the pool when more than
        a quarter of it is counted as stale. */
    method Removed(ghost out: seq<Tx>)
      requires Holds(out)
      modifies this`items, this`stales
      ensures Holds(out)
      ensures if old(stales) + 1 <= old(|items|) / 4
              then stales == old(stales) + 1 && items == old(items)
              else stales == 0 && multiset(items) == Entries(all)
    {
      hide Heap.IsHeap, Entries;
      stales := stales + 1;
      if stales <= |items| / 4 {
        return;
      }
      stales := 0;
      var reheap := Listed();
      items := Heap.Init(reheap, Price());
      RebuiltCovers(all, out);
    }

    /** The transactions of the pool, in no particular order. */
    method Listed() returns (txs: seq<Tx>)
      requires ByHash(all)
      ensures multiset(txs) == Entries(all)
    {
      txs := [];
      var todo := all.Keys;
      ghost var done: Pool := map[];
      while todo != {}
        invariant todo <= all.Keys && done == all - todo
        invariant multiset(txs) == Entries(done)
      {
        var h :| h in todo;
        assert all - (todo - {h}) == done[h := all[h]];
        EntriesAdd(done, h, all[h]);
        todo := todo - {h};
        txs := txs + [all[h]];
        done := done[h := all[h]];
      }
      assert done == all;
    }

    /** removeTx, as far as the pool's table and the heap go. */
    method RemoveTx(hash: nat, ghost out: seq<Tx>)
      requires Holds(out)
      modifies this
      ensures Holds(out) && all == old(all) - {hash}
    {
      hide Heap.IsHeap, Covered, Agree, ByHash;
      if hash !in all {
        assert all - {hash} == all;
        return;
      }
      WithoutTx(all, multiset(items), hash, out);
      all := all - {hash};
      Removed(out);
    }

    /** Takes every transaction of a batch that has left the heap out of the pool. */
    method RemoveAll(drop: seq<Tx>)
      requires Holds(drop)
      modifies this
      ensures Valid() && all == old(all) - Hashes(drop)
    {
      hide Heap.IsHeap, Covered, Agree, ByHash, Hashes;
      HashesStart(all, drop);
      for i := 0 to |drop|
        invariant Holds(drop[i..])
        invariant all == old(all) - Hashes(drop[..i])
      {
        RemoveTx(drop[i].hash, drop[i..]);
        HashesStep(old(all), multiset(items), drop, i);
      }
      assert drop[..|drop|] == drop && drop[|drop|..] == [];
    }

    /** Puts what a sweep set aside back on the heap. */
    method PutBack(save: seq<Tx>)
      modifies this`items
      ensures multiset(items) == old(multiset(items)) + multiset(save)
      ensures old(Heap.IsHeap(items, Price())) ==> Heap.IsHeap(items, Price())
    {
      hide Heap.IsHeap;
      for i := 0 to |save|
        invariant multiset(items) == old(multiset(items)) + multiset(save[..i])
        invariant old(Heap.IsHeap(items, Price())) ==> Heap.IsHeap(items, Price())
      {
        assert save[..i + 1] == save[..i] + [save[i]];
        items := Heap.Push(items, save[i], Price());
      }
      assert save[..|save|] == save;
    }

    /** heap.Pop. */
    method PopEntry() returns (tx: Tx)
      requires Heap.IsHeap(items, Price()) && items != []
      modifies this`items
      ensures Heap.IsHeap(items, Price()) && |items| == old(|items|) - 1
      ensures tx == old(items[0]) && Minus(old(multiset(items)), multiset(items), tx)
      ensures tx in old(multiset(items)) && NoneBelow(multiset(items), tx.price)
    {
      hide Heap.IsHeap;
      tx, items := Heap.Pop(items, Price());
      assert |multiset(old(items))| == |multiset(items)| + 1;
      assert forall x :: x in multiset(items) ==> x in multiset(old(items));
    }

    /** Cap: takes exactly the pooled remote transactions below the threshold off the heap. */
    method Cap(threshold: nat, locals: set<Address>) returns (drop: seq<Tx>)
      requires Valid()
      modifies this`items, this`stales
      ensures Holds(drop)
      ensures forall tx :: tx in drop <==> IsPooledRemote(all, locals, tx) && tx.price < threshold
      ensures TakenOff(all, old(multiset(items)), multiset(items), multiset(drop))
      ensures stales == old(stales) - (old(|items|) - |items| - |drop|)
    {
      hide Heap.IsHeap, Sweep, Agree, Covered, TakenOff, ByHash, Minus, Spared, Dropped, NoneBelow;
      drop := [];
      var save: seq<Tx> := [];
      ghost var before := multiset(items);
      ghost var gone: multiset<Tx> := multiset{};
      SweepStart(all, before);
      NothingOut(all, locals, threshold);
      var stopped := false;
      while items != [] && !stopped
        invariant Heap.IsHeap(items, Price())
        invariant Sweep(all, before, multiset(items), save, drop, gone)
        invariant stales == old(stales) - |gone|
        invariant Spared(locals, threshold, save) && Dropped(all, locals, threshold, drop)
        invariant stopped ==> NoneBelow(multiset(items), threshold)
        decreases |items|
      {
        ghost var rest := multiset(items);
        var tx := PopEntry();
        if tx.hash !in all {
          gone := SweepStale(all, before, rest, multiset(items), save, drop, gone, tx);
          stales := stales - 1;
        } else {
          SweepAgrees(all, before, rest, save, drop, gone, tx);
          if tx.price >= threshold {
            SweepSave(all, before, rest, multiset(items), save, drop, gone, tx);
            SpareMore(locals, threshold, save, tx);
            Lower(multiset(items), tx.price, threshold);
            save := save + [tx];
            stopped := true;
          } else if tx.sender in locals {
            SweepSave(all, before, rest, multiset(items), save, drop, gone, tx);
            SpareMore(locals, threshold, save, tx);
            save := save + [tx];
          } else {
            SweepDrop(all, before, rest, multiset(items), save, drop, gone, tx);
            DropMore(all, locals, threshold, drop, tx);
            drop := drop + [tx];
          }
        }
      }
      FinishCap(before, save, drop, gone, locals, threshold);
    }

    method FinishCap(ghost before: multiset<Tx>, save: seq<Tx>, drop: seq<Tx>,
                     ghost gone: multiset<Tx>, ghost locals: set<Address>, ghost threshold: nat)
      requires Heap.IsHeap(items, Price())
      requires Sweep(all, before, multiset(items), save, drop, gone)
      requires ByHash(all) && Agree(all, before) && Covered(all, before, [])
      requires Spared(locals, threshold, save) && Dropped(all, locals, threshold, drop)
      requires items == [] || NoneBelow(multiset(items), threshold)
      modifies this`items
      ensures Holds(drop) && TakenOff(all, before, multiset(items), multiset(drop))
      ensures |before| == |items| + |drop| + |gone|
      ensures forall tx :: tx in drop <==> IsPooledRemote(all, locals, tx) && tx.price < threshold
    {
      hide *;
      if items == [] {
        NoneLeft(items, threshold);
      }
      FoundAll(all, before, multiset(items), save, drop, gone, locals, threshold);
      Finish(before, save, drop, gone);
    }

    method Finish(ghost before: multiset<Tx>, save: seq<Tx>, drop: seq<Tx>, ghost gone: multiset<Tx>)
      requires Heap.IsHeap(items, Price())
      requires Sweep(all, before, multiset(items), save, drop, gone)
      requires ByHash(all) && Agree(all, before) && Covered(all, before, [])
      modifies this`items
      ensures Holds(drop) && TakenOff(all, before, multiset(items), multiset(drop))
      ensures |before| == |items| + |drop| + |gone|
    {
      hide Heap.IsHeap, Sweep, Agree, Covered, TakenOff, ByHash;
      SweepDone(all, before, multiset(items), save, drop, gone, []);
      assert [] + drop == drop;
      PutBack(save);
      assert |multiset(items)| == |items|;
    }

    /** Discard: takes up to count of the cheapest pooled remote transactions off the heap. */
    method Discard(count: int, locals: set<Address>) returns (drop: seq<Tx>)
      requires Valid()
      modifies this`items, this`stales
      ensures Holds(drop)
      ensures forall tx :: tx in drop ==> IsPooledRemote(all, locals, tx)
      ensures forall tx, kept :: tx in drop && IsPooledRemote(all, locals, kept) && kept !in drop ==>
                tx.price <= kept.price
      ensures |drop| == 0 || |drop| <= count
      ensures |drop| < count ==> forall tx :: IsPooledRemote(all, locals, tx) ==> tx in drop
      ensures TakenOff(all, old(multiset(items)), multiset(items), multiset(drop))
      ensures stales == old(stales) - (old(|items|) - |items| - |drop|)
    {
      hide Heap.IsHeap, Sweep, Agree, Covered, TakenOff, ByHash, Minus, NoneBelow, IsPooledRemote, AllRemote;
      hide AllLocal, Cheaper;
      drop := [];
      var save: seq<Tx> := [];
      ghost var before := multiset(items);
      ghost var gone: multiset<Tx> := multiset{};
      SweepStart(all, before);
      DiscardStart(all, locals, before);
      var wanted := count;
      while items != [] && wanted > 0
        invariant Heap.IsHeap(items, Price())
        invariant Sweep(all, before, multiset(items), save, drop, gone)
        invariant stales == old(stales) - |gone|
        invariant wanted + |drop| == count && (drop == [] || wanted >= 0)
        invariant AllLocal(locals, save) && AllRemote(all, locals, drop) && Cheaper(drop, multiset(items))
        decreases |items|
      {
        ghost var rest := multiset(items);
        var tx := PopEntry();
        StillCheaper(drop, rest, multiset(items), tx);
        if tx.hash !in all {
          gone := SweepStale(all, before, rest, multiset(items), save, drop, gone, tx);
          stales := stales - 1;
        } else {
          SweepAgrees(all, before, rest, save, drop, gone, tx);
          if tx.sender in locals {
            SweepSave(all, before, rest, multiset(items), save, drop, gone, tx);
            LocalMore(locals, save, tx);
            save := save + [tx];
          } else {
            SweepDrop(all, before, rest, multiset(items), save, drop, gone, tx);
            RemoteMore(all, locals, drop, multiset(items), tx);
            drop := drop + [tx];
            wanted := wanted - 1;
          }
        }
      }
      KeptOnHeap(all, before, multiset(items), save, drop, gone, locals);
      DroppedFirst(all, locals, multiset(items), drop);
      assert items == [] ==> multiset(items) == multiset{};
      Finish(before, save, drop, gone);
    }

    /** Underpriced: whether a remote transaction offers no more than every pooled one. */
    method Underpriced(tx: Tx, locals: set<Address>) returns (under: bool)
      requires Valid()
      modifies this`items, this`stales
      ensures Valid() && TakenOff(all, old(multiset(items)), multiset(items), multiset{})
      ensures under <==> tx.sender !in locals && all != map[] && forall h :: h in all ==> tx.price <= all[h].price
      ensures stales == old(stales) - (old(|items|) - |items|)
    {
      hide Heap.IsHeap, Sweep, Agree, TakenOff, ByHash, Minus, NoneBelow;
      ghost var before := multiset(items);
      ghost var gone: multiset<Tx> := multiset{};
      SweepStart(all, before);
      StaleOnly(all, before, before, gone);
      if tx.sender in locals {
        return false;
      }
      while items != [] && items[0].hash !in all
        invariant Heap.IsHeap(items, Price())
        invariant Sweep(all, before, multiset(items), [], [], gone)
        invariant stales == old(stales) - |gone|
        decreases |items|
      {
        ghost var rest := multiset(items);
        stales := stales - 1;
        var head := PopEntry();
        gone := SweepStale(all, before, rest, multiset(items), [], [], gone, head);
      }
      StaleOnly(all, before, multiset(items), gone);
      assert |multiset(items)| == |items|;
      if items == [] {
        return false;
      }
      Cheapest(all, items);
      return items[0].price >= tx.price;
    }

    /** SetGasPrice: raising the price limit leaves exactly the transactions that are
        local or pay the new price. */
    method SetGasPrice(threshold: nat, locals: set<Address>)
      requires Valid()
      modifies this
      ensures Valid()
      ensures all == map h | h in old(all) && (old(all)[h].sender in locals || old(all)[h].price >= threshold) :: old(all)[h]
    {
      hide Heap.IsHeap, Covered, Agree, TakenOff;
      var drop := Cap(threshold, locals);
      RemoveAll(drop);
    }

    /** What add does when the pool is full: rejects an underpriced transaction, or
        makes room by removing remote transactions, none dearer than a remote one it keeps. */
    method MakeRoom(tx: Tx, limit: nat, locals: set<Address>) returns (accepted: bool)
      requires Valid() && limit > 0
      modifies this
      ensures Valid() && all.Keys <= old(all).Keys && forall h :: h in all ==> all[h] == old(all)[h]
      ensures !accepted <==>
                (&& |old(all)| >= limit && tx.sender !in locals
                 && forall h :: h in old(all) ==> tx.price <= old(all)[h].price)
      ensures !accepted || |old(all)| < limit ==> all == old(all)
      ensures forall h :: h in old(all) && h !in all ==> old(all)[h].sender !in locals
      ensures forall h, k :: h in old(all) && h !in all && k in all && all[k].sender !in locals ==>
                old(all)[h].price <= all[k].price
      ensures accepted && |old(all)| >= limit ==> |all| >= limit - 1
      ensures accepted && |old(all)| >= limit && NoRepeats(old(all), old(multiset(items))) ==>
                |all| == limit - 1 || forall h :: h in all ==> all[h].sender in locals
    {
      hide Heap.IsHeap, Covered, Agree, TakenOff;
      if |all| >= limit {
        assert all != map[];
        var under := Underpriced(tx, locals);
        if under {
          return false;
        }
        ghost var entries := multiset(items);
        FewerRepeats(all, old(multiset(items)), entries);
        var drop := Discard(|all| - (limit - 1), locals);
        if NoRepeats(all, entries) {
          DropsDiffer(all, entries, multiset(items), drop);
        }
        RemoveAll(drop);
        HashesFew(drop);
        LeftOver(old(all), Hashes(drop));
      }
      return true;
    }
  }

  lemma StaleOnly(all: Pool, before: multiset<Tx>, rest: multiset<Tx>, gone: multiset<Tx>)
    requires Sweep(all, before, rest, [], [], gone)
    requires ByHash(all) && Agree(all, before) && Covered(all, before, [])
    ensures TakenOff(all, before, rest, multiset{}) && Agree(all, rest) && Covered(all, rest, [])
    ensures |rest| + |gone| == |before|
  {
    SweepDone(all, before, rest, [], [], gone, []);
    var none: seq<Tx> := [];
    assert rest + multiset(none) == rest && multiset(none) == multiset{};
    assert none + none == none;
  }

  lemma NoneLeft(items: seq<Tx>, bound: int)
    requires items == []
    ensures NoneBelow(multiset(items), bound)
  {
  }

  lemma Lower(rest: multiset<Tx>, bound: int, bound': int)
    requires NoneBelow(rest, bound) && bound' <= bound
    ensures NoneBelow(rest, bound')
  {
  }

  // ----- what Discard drops -----

  ghost predicate AllLocal(locals: set<Address>, save: seq<Tx>) {
    forall x :: x in save ==> x.sender in locals
  }

  ghost predicate AllRemote(all: Pool, locals: set<Address>, drop: seq<Tx>) {
    forall x :: x in drop ==> IsPooledRemote(all, locals, x)
  }

  ghost predicate Cheaper(drop: seq<Tx>, rest: multiset<Tx>) {
    forall d, x :: d in drop && x in rest ==> d.price <= x.price
  }

  lemma DiscardStart(all: Pool, locals: set<Address>, rest: multiset<Tx>)
    ensures AllLocal(locals, []) && AllRemote(all, locals, []) && Cheaper([], rest)
  {
  }

  lemma StillCheaper(drop: seq<Tx>, rest: multiset<Tx>, rest': multiset<Tx>, tx: Tx)
    requires Cheaper(drop, rest) && Minus(rest, rest', tx)
    ensures Cheaper(drop, rest')
  {
    assert forall x :: x in rest' ==> x in rest;
  }

  lemma LocalMore(locals: set<Address>, save: seq<Tx>, tx: Tx)
    requires AllLocal(locals, save) && tx.sender in locals
    ensures AllLocal(locals, save + [tx])
  {
  }

  lemma RemoteMore(all: Pool, locals: set<Address>, drop: seq<Tx>, rest: multiset<Tx>, tx: Tx)
    requires AllRemote(all, locals, drop) && tx.hash in all && all[tx.hash] == tx && tx.sender !in locals
    requires Cheaper(drop, rest) && NoneBelow(rest, tx.price)
    ensures AllRemote(all, locals, drop + [tx]) && Cheaper(drop + [tx], rest)
  {
  }

  lemma DroppedFirst(all: Pool, locals: set<Address>, rest: multiset<Tx>, drop: seq<Tx>)
    requires AllRemote(all, locals, drop) && Cheaper(drop, rest)
    requires forall tx :: IsPooledRemote(all, locals, tx) && tx !in drop ==> tx in rest
    ensures forall tx :: tx in drop ==> IsPooledRemote(all, locals, tx)
    ensures forall tx, kept :: tx in drop && IsPooledRemote(all, locals, kept) && kept !in drop ==>
              tx.price <= kept.price
  {
  }

  /** Discard leaves every pooled remote transaction it does not drop on the heap. */
  lemma KeptOnHeap(all: Pool, before: multiset<Tx>, rest: multiset<Tx>, save: seq<Tx>, drop: seq<Tx>,
                   gone: multiset<Tx>, locals: set<Address>)
    requires Sweep(all, before, rest, save, drop, gone) && Covered(all, before, [])
    requires AllLocal(locals, save)
    ensures forall tx :: IsPooledRemote(all, locals, tx) && tx !in drop ==> tx in rest
  {
    forall tx | IsPooledRemote(all, locals, tx) && tx !in drop ensures tx in rest {
      assert tx in before;
      assert tx !in multiset(save);
      assert tx !in multiset(drop);
    }
  }

  /** With a live entry at the root, the root is the cheapest pooled transaction. */
  lemma Cheapest(all: Pool, items: seq<Tx>)
    requires Heap.IsHeap(items, Price()) && items != [] && items[0].hash in all
    requires Agree(all, multiset(items)) && Covered(all, multiset(items), [])
    ensures all[items[0].hash] == items[0]
    ensures forall h :: h in all ==> items[0].price <= all[h].price
  {
    assert items[0] in multiset(items);
    forall h | h in all ensures items[0].price <= all[h].price {
      assert all[h] in items;
      var i :| 0 <= i < |items| && items[i] == all[h];
      Heap.RootIsLeast(items, Price(), i);
    }
  }

  lemma {:induction false} HashesFew(txs: seq<Tx>)
    ensures |Hashes(txs)| <= |txs|
  {
    if txs != [] {
      var rest := txs[..|txs| - 1];
      HashesFew(rest);
      assert txs == rest + [txs[|txs| - 1]];
      assert Hashes(txs) == Hashes(rest) + {txs[|txs| - 1].hash};
    } else {
      assert Hashes(txs) == {};
    }
  }

  /** Every pooled transaction has at most one entry. */
  ghost predicate NoRepeats(all: Pool, entries: multiset<Tx>) {
    forall tx :: tx in entries && tx.hash in all ==> entries[tx] == 1
  }

  lemma FewerRepeats(all: Pool, before: multiset<Tx>, after: multiset<Tx>)
    requires TakenOff(all, before, after, multiset{})
    ensures NoRepeats(all, before) ==> NoRepeats(all, after)
  {
  }

  /** Then what a sweep drops are different transactions. */
  lemma DropsDiffer(all: Pool, before: multiset<Tx>, after: multiset<Tx>, drop: seq<Tx>)
    requires NoRepeats(all, before) && TakenOff(all, before, after, multiset(drop))
    requires forall tx :: tx in drop ==> tx.hash in all && all[tx.hash] == tx
    ensures |Hashes(drop)| == |drop| && Hashes(drop) <= all.Keys
  {
    forall i, j | 0 <= i < j < |drop| ensures drop[i].hash != drop[j].hash {
      if drop[i].hash == drop[j].hash {
        Twice(drop, i, j);
      }
    }
    HashesDistinct(drop);
  }

  lemma {:induction false} HashesDistinct(txs: seq<Tx>)
    requires forall i, j :: 0 <= i < j < |txs| ==> txs[i].hash != txs[j].hash
    ensures |Hashes(txs)| == |txs|
  {
    if txs != [] {
      var rest := txs[..|txs| - 1];
      HashesDistinct(rest);
      assert txs == rest + [txs[|txs| - 1]];
      assert Hashes(txs) == Hashes(rest) + {txs[|txs| - 1].hash};
    } else {
      assert Hashes(txs) == {};
    }
  }

  lemma LeftOver(all: Pool, gone: set<nat>)
    ensures |all - gone| >= |all| - |gone|
    ensures gone <= all.Keys ==> |all - gone| == |all| - |gone|
  {
    if gone <= all.Keys {
      assert all.Keys * gone == gone;
    }
    assert all.Keys == (all - gone).Keys + all.Keys * gone;
    assert |(all - gone).Keys| == |all - gone|;
    Subset(all.Keys * gone, gone);
  }
}
