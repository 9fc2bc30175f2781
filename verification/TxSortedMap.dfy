/**
 * The nonce-sorted transaction map: a hash map with a heap of its nonces and a
 * cache of its sorted contents (core/tx_list.go, txSortedMap).
 */
module TxSortedMap {
  import opened Wrappers
  import opened TxItems
  import Heap

  function NonceKey(): nat -> int {
    (n: nat) => n
  }

  function TxNonce(): Tx -> int {
    (tx: Tx) => tx.nonce
  }

  /** The heap holds each key exactly once. */
  ghost predicate Indexed(index: seq<nat>, items: Items) {
    Heap.IsHeap(index, NonceKey()) && multiset(index) == multiset(items.Keys)
  }

  lemma IndexedKeys(index: seq<nat>, items: Items)
    requires multiset(index) == multiset(items.Keys)
    ensures forall n :: n in index <==> n in items
    ensures |index| == |items|
  {
    forall n ensures n in index <==> n in items {
      assert n in index <==> n in multiset(index);
      assert n in items <==> n in multiset(items.Keys);
    }
    assert |multiset(index)| == |index| && |multiset(items.Keys)| == |items.Keys|;
  }

  lemma RootIsLeastKey(index: seq<nat>, items: Items)
    requires Indexed(index, items) && index != []
    ensures IsLeast(items.Keys, index[0])
  {
    IndexedKeys(index, items);
    assert index[0] in index;
    forall m | m in items.Keys ensures index[0] <= m {
      assert m in index;
      var i :| 0 <= i < |index| && index[i] == m;
      Heap.RootIsLeast(index, NonceKey(), i);
    }
  }

  lemma KeysWithout(items: Items, n: nat)
    requires n in items
    ensures multiset((items - {n}).Keys) + multiset{n} == multiset(items.Keys)
  {
    assert (items - {n}).Keys == items.Keys - {n};
  }

  lemma KeysWith(items: Items, n: nat, tx: Tx)
    ensures multiset(items[n := tx].Keys) == multiset(items.Keys) + (if n in items then multiset{} else multiset{n})
  {
    assert items[n := tx].Keys == items.Keys + {n};
    if n in items {
      assert items.Keys + {n} == items.Keys;
    }
  }

  lemma Cancel(h': seq<nat>, h: seq<nat>, keys': set<nat>, keys: set<nat>, n: nat)
    requires multiset(h') + multiset{n} == multiset(h) == multiset(keys) == multiset(keys') + multiset{n}
    ensures multiset(h') == multiset(keys') && |h'| == |h| - 1
  {
    assert multiset(h') == (multiset(h') + multiset{n}) - multiset{n};
    assert multiset(keys') == (multiset(keys') + multiset{n}) - multiset{n};
    assert |multiset(h')| == |h'| && |multiset(h)| == |h|;
  }

  lemma AboveAll(index: seq<nat>, items: Items, threshold: nat)
    requires Indexed(index, items) && (index == [] || index[0] >= threshold)
    ensures forall n :: n in items ==> n >= threshold
    ensures index == [] <==> items == map[]
  {
    IndexedKeys(index, items);
    if index != [] {
      RootIsLeastKey(index, items);
    }
  }

  /** The removed transactions are exactly those of the map that are gone, each
      listed once. */
  ghost predicate IsRemoved(before: Items, after: Items, removed: seq<Tx>) {
    && (forall tx :: tx in removed <==> Holds(before, tx) && tx.nonce !in after)
    && |removed| + |after| == |before|
  }

  lemma NothingRemoved(items: Items)
    ensures IsRemoved(items, items, [])
  {
  }

  lemma RemoveOne(before: Items, after: Items, removed: seq<Tx>, n: nat)
    requires IsRemoved(before, after, removed) && ByNonce(before)
    requires n in after && n in before && after[n] == before[n]
    ensures IsRemoved(before, after - {n}, removed + [after[n]])
  {
    Smaller(after, n);
    forall tx ensures tx in removed + [after[n]] <==> tx in removed || tx == after[n] {}
  }

  /** What is left while the filter still has some nonces to look at. */
  ghost function Undecided(before: Items, todo: set<nat>, filter: Tx -> bool): Items {
    map n | n in before && (n in todo || !filter(before[n])) :: before[n]
  }

  lemma AllUndecided(items: Items, filter: Tx -> bool)
    ensures Undecided(items, items.Keys, filter) == items
  {
  }

  lemma Decided(before: Items, filter: Tx -> bool)
    ensures Undecided(before, {}, filter) == (map n | n in before && !filter(before[n]) :: before[n])
    ensures ByNonce(before) ==> ByNonce(Undecided(before, {}, filter))
  {
  }

  lemma Decide(before: Items, todo: set<nat>, filter: Tx -> bool, n: nat)
    requires n in todo && todo <= before.Keys
    ensures n in Undecided(before, todo, filter) && Undecided(before, todo, filter)[n] == before[n]
    ensures Undecided(before, todo - {n}, filter)
         == if filter(before[n]) then Undecided(before, todo, filter) - {n} else Undecided(before, todo, filter)
  {
  }

  /** The part from a nonce on. */
  ghost function From(items: Items, nonce: nat): Items {
    map n | n in items && n >= nonce :: items[n]
  }

  class SortedMap {
    var items: Items
    var index: seq<nat>
    var cache: Option<seq<Tx>>

    ghost predicate Valid()
      reads this
    {
      && ByNonce(items) && Indexed(index, items)
      && (cache.Some? ==> cache.value == Flat(items))
    }

    constructor ()
      ensures Valid() && items == map[]
    {
      items, index, cache := map[], [], None;
    }

    method Get(nonce: nat) returns (tx: Option<Tx>)
      requires Valid()
      ensures tx.Some? <==> nonce in items
      ensures tx.Some? ==> tx.value == items[nonce] && tx.value.nonce == nonce
    {
      tx := if nonce in items then Some(items[nonce]) else None;
    }

    method Put(tx: Tx)
      requires Valid()
      modifies this
      ensures Valid() && items == old(items)[tx.nonce := tx]
    {
      hide Heap.IsHeap, Flat;
      var nonce := tx.nonce;
      KeysWith(items, nonce, tx);
      if nonce !in items {
        index := Heap.Push(index, nonce, NonceKey());
      }
      items, cache := items[nonce := tx], None;
    }

    /** Takes the transaction with the lowest nonce out of map and heap. */
    method PopLeast() returns (tx: Tx)
      requires ByNonce(items) && Indexed(index, items) && index != []
      modifies this`items, this`index
      ensures ByNonce(items) && Indexed(index, items) && |index| == |old(index)| - 1
      ensures IsLeast(old(items).Keys, old(index)[0])
      ensures tx == old(items)[old(index)[0]] && items == old(items) - {old(index)[0]}
      ensures Flat(old(items)) == [tx] + Flat(items)
    {
      hide Heap.IsHeap, Flat;
      RootIsLeastKey(index, items);
      FlatFirst(items, index[0]);
      KeysWithout(items, index[0]);
      var nonce;
      nonce, index := Heap.Pop(index, NonceKey());
      Cancel(index, old(index), (items - {nonce}).Keys, items.Keys, nonce);
      tx := items[nonce];
      items := items - {nonce};
    }

    /** Removes and returns everything below the threshold, in nonce order. */
    method Forward(threshold: nat) returns (removed: seq<Tx>)
      requires Valid()
      modifies this
      ensures Valid() && items == From(old(items), threshold)
      ensures forall n :: n in items <==> n in old(items) && n >= threshold
      ensures removed + Flat(items) == Flat(old(items))
      ensures forall i :: 0 <= i < |removed| ==> removed[i].nonce < threshold
    {
      hide Indexed, Flat;
      removed := [];
      while |index| > 0 && index[0] < threshold
        invariant cache == old(cache)
        invariant ByNonce(items) && Indexed(index, items)
        invariant forall n :: n in items ==> n in old(items) && items[n] == old(items)[n]
        invariant forall n :: n in old(items) && n >= threshold ==> n in items
        invariant removed + Flat(items) == Flat(old(items))
        invariant forall i :: 0 <= i < |removed| ==> removed[i].nonce < threshold
        decreases |index|
      {
        var tx := PopLeast();
        removed := removed + [tx];
      }
      AboveAll(index, items, threshold);
      if cache.Some? {
        cache := Some(cache.value[|removed|..]);
      }
    }

    /** Removes and returns everything the filter accepts, in no particular order. */
    method Filter(filter: Tx -> bool) returns (removed: seq<Tx>)
      requires Valid()
      modifies this
      ensures Valid() && items == (map n | n in old(items) && !filter(old(items)[n]) :: old(items)[n])
      ensures IsRemoved(old(items), items, removed)
    {
      hide Indexed, Flat, IsRemoved, Undecided;
      removed := [];
      NothingRemoved(items);
      AllUndecided(items, filter);
      var todo := items.Keys;
      while todo != {}
        invariant index == old(index) && cache == old(cache)
        invariant todo <= old(items).Keys && items == Undecided(old(items), todo, filter)
        invariant IsRemoved(old(items), items, removed)
        invariant removed == [] ==> items == old(items)
        decreases todo
      {
        var nonce :| nonce in todo;
        Decide(old(items), todo, filter, nonce);
        var tx := items[nonce];
        if filter(tx) {
          RemoveOne(old(items), items, removed, nonce);
          removed := removed + [tx];
          items := items - {nonce};
        }
        todo := todo - {nonce};
      }
      Decided(old(items), filter);
      if |removed| > 0 {
        Reindex();
        cache := None;
      }
    }

    /** A new heap from the keys. */
    method Reindex()
      modifies this`index
      ensures Indexed(index, items)
    {
      index := [];
      var todo := items.Keys;
      while todo != {}
        invariant multiset(index) + multiset(todo) == multiset(items.Keys)
        decreases todo
      {
        var nonce :| nonce in todo;
        index := index + [nonce];
        todo := todo - {nonce};
      }
      index := Heap.Init(index, NonceKey());
    }

    /** Cap: keeps the lowest nonces and returns the others, highest first. */
    method Cap(threshold: nat) returns (drops: seq<Tx>)
      requires Valid()
      modifies this
      ensures Valid() && items == Lowest(old(items), threshold)
      ensures Flat(items) + Reversed(drops) == Flat(old(items))
      ensures forall i, j :: 0 <= i < j < |drops| ==> drops[i].nonce > drops[j].nonce
    {
      hide Heap.IsHeap, Flat, Lowest, SortedKeys, Reversed, Increasing;
      FlatIsFlat(items);
      drops := [];
      NothingReversed();
      if |items| <= threshold {
        LowestAll(items, threshold);
        return;
      }
      SortIndex();
      LowestAll(items, |items|);
      var size := |items|;
      while size > threshold
        invariant cache == old(cache) && threshold <= size && SortedKeys(size)
        invariant items == Lowest(old(items), size)
        invariant Flat(items) + Reversed(drops) == Flat(old(items))
      {
        var tx := DropLast(size);
        LowestTwice(old(items), size, size - 1);
        ReverseAppend(drops, tx);
        drops := drops + [tx];
        size := size - 1;
      }
      Truncate(threshold);
      Descending(Flat(items), drops);
      if cache.Some? {
        ReversedLength(drops);
        cache := Some(cache.value[..|cache.value|-|drops|]);
      }
    }

    /** The first entries of the index are the keys in increasing order. */
    ghost predicate SortedKeys(size: nat)
      reads this
    {
      && ByNonce(items) && Heap.IsSorted(index, NonceKey()) && size <= |index|
      && multiset(index[..size]) == multiset(items.Keys)
    }

    /** Cuts the index off and makes a heap of it again. */
    method Truncate(size: nat)
      requires SortedKeys(size)
      modifies this`index
      ensures ByNonce(items) && Indexed(index, items)
    {
      index := Heap.Init(index[..size], NonceKey());
    }

    /** sort.Sort on the index. */
    method SortIndex()
      requires Valid()
      modifies this`index
      ensures SortedKeys(|items|)
    {
      hide Heap.IsHeap, Heap.IsSorted, Flat;
      Heap.SortSorts(index, NonceKey());
      index := Heap.Sort(index, NonceKey());
      IndexedKeys(index, items);
      assert index[..|items|] == index;
    }

    /** Deletes the highest of the sorted keys from the map. */
    method DropLast(size: nat) returns (tx: Tx)
      requires SortedKeys(size) && size > 0
      modifies this`items
      ensures SortedKeys(size - 1)
      ensures items == Lowest(old(items), size - 1) && Flat(old(items)) == Flat(items) + [tx]
    {
      hide Heap.IsSorted, Flat, Lowest;
      var last := index[size-1];
      SortedLast(index, items, size);
      DropGreatest(items, last);
      FlatLast(items, last);
      KeysWithout(items, last);
      assert index[..size] == index[..size-1] + [last];
      Cancel(index[..size-1], index[..size], (items - {last}).Keys, items.Keys, last);
      tx := items[last];
      items := items - {last};
    }

    /** Remove: takes one nonce out. */
    method Remove(nonce: nat) returns (found: bool)
      requires Valid()
      modifies this
      ensures Valid() && found == (nonce in old(items)) && items == old(items) - {nonce}
    {
      hide Heap.IsHeap, Flat;
      if nonce !in items {
        return false;
      }
      KeysWithout(items, nonce);
      var i := FindNonce(nonce);
      index := Heap.Remove(index, i, NonceKey());
      Cancel(index, old(index), (items - {nonce}).Keys, items.Keys, nonce);
      items := items - {nonce};
      cache := None;
      return true;
    }

    /** Where the nonce is in the heap. */
    method FindNonce(nonce: nat) returns (i: nat)
      requires Indexed(index, items) && nonce in items
      ensures i < |index| && index[i] == nonce
    {
      IndexedKeys(index, items);
      i := 0;
      while index[i] != nonce
        invariant 0 <= i < |index| && nonce in index[i..]
        decreases |index| - i
      {
        i := i + 1;
      }
    }

    /** Ready: if the lowest nonce is not above the start, the longest run of
        consecutive nonces from it on. */
    method Ready(start: nat) returns (ready: seq<Tx>)
      requires Valid()
      modifies this
      ensures Valid() && ready + Flat(items) == Flat(old(items))
      ensures ready == [] <==> old(items) == map[] || forall n :: n in old(items) ==> n > start
      ensures forall i :: 0 <= i < |ready| ==> ready[i].nonce == ready[0].nonce + i
      ensures ready != [] ==> ready[0].nonce + |ready| !in items
      ensures items == if ready == [] then old(items) else From(old(items), ready[0].nonce + |ready|)
    {
      hide Indexed, Flat;
      ready := [];
      if |index| == 0 || index[0] > start {
        AboveAll(index, items, start + 1);
        return;
      }
      RootIsLeastKey(index, items);
      var next := index[0];
      ghost var first := next;
      while |index| > 0 && index[0] == next
        invariant ByNonce(items) && Indexed(index, items) && next == first + |ready|
        invariant ready == [] ==> index == old(index) && items == old(items)
        invariant forall i :: 0 <= i < |ready| ==> ready[i].nonce == first + i
        invariant items == From(old(items), next)
        invariant ready + Flat(items) == Flat(old(items))
        decreases |index|
      {
        var tx := PopLeast();
        ready := ready + [tx];
        next := next + 1;
      }
      NextAbsent(index, items, next);
      cache := None;
    }

    /** Flatten: the sorted contents, from the cache when it is there. */
    method Flatten() returns (txs: seq<Tx>)
      requires Valid()
      modifies this`cache
      ensures Valid() && txs == Flat(items)
    {
      hide Heap.IsHeap, Flat;
      if cache.None? {
        var all: seq<Tx> := [];
        var todo := items.Keys;
        while todo != {}
          invariant todo <= items.Keys && Valid()
          invariant forall tx :: tx in all <==> Holds(items, tx) && tx.nonce !in todo
          invariant forall i, j :: 0 <= i < j < |all| ==> all[i].nonce != all[j].nonce
          decreases todo
        {
          var n :| n in todo;
          all := all + [items[n]];
          todo := todo - {n};
        }
        SortedIsFlat(all, items);
        cache := Some(Heap.Sort(all, TxNonce()));
      }
      txs := cache.value;
    }
  }

  function Reversed(s: seq<Tx>): seq<Tx> {
    if s == [] then [] else [s[|s|-1]] + Reversed(s[..|s|-1])
  }

  lemma NothingReversed()
    ensures Reversed([]) == []
  {
  }

  lemma ReverseAppend(s: seq<Tx>, tx: Tx)
    ensures Reversed(s + [tx]) == [tx] + Reversed(s)
  {
    assert (s + [tx])[..|s|] == s;
  }

  lemma {:induction false} ReversedLength(s: seq<Tx>)
    ensures |Reversed(s)| == |s|
  {
    if s != [] {
      ReversedLength(s[..|s|-1]);
    }
  }

  lemma {:induction false} ReversedAt(s: seq<Tx>, k: nat)
    requires k < |s|
    ensures |Reversed(s)| == |s| && Reversed(s)[|s| - 1 - k] == s[k]
  {
    var front := s[..|s|-1];
    ReversedLength(front);
    if k < |front| {
      ReversedAt(front, k);
    }
  }

  /** The highest nonces are dropped first. */
  lemma Descending(kept: seq<Tx>, drops: seq<Tx>)
    requires Increasing(kept + Reversed(drops))
    ensures forall i, j :: 0 <= i < j < |drops| ==> drops[i].nonce > drops[j].nonce
  {
    hide Reversed;
    ReversedLength(drops);
    TailIncreasing(kept, Reversed(drops));
    forall i, j | 0 <= i < j < |drops| ensures drops[i].nonce > drops[j].nonce {
      ReversedAt(drops, i);
      ReversedAt(drops, j);
    }
  }

  lemma TailIncreasing(kept: seq<Tx>, tail: seq<Tx>)
    requires Increasing(kept + tail)
    ensures Increasing(tail)
  {
    var all := kept + tail;
    forall i, j | 0 <= i < j < |tail| ensures tail[i].nonce < tail[j].nonce {
      assert all[|kept| + i] == tail[i] && all[|kept| + j] == tail[j];
    }
  }

  /** The last of the sorted keys is the greatest. */
  lemma SortedLast(index: seq<nat>, items: Items, size: nat)
    requires Heap.IsSorted(index, NonceKey()) && 0 < size <= |index|
    requires multiset(index[..size]) == multiset(items.Keys)
    ensures IsGreatest(items.Keys, index[size-1]) && |items| == size
  {
    IndexedKeys(index[..size], items);
    assert index[size-1] in index[..size];
    forall m | m in items.Keys ensures m <= index[size-1] {
      assert m in index[..size];
      var i :| 0 <= i < size && index[i] == m;
    }
  }

  lemma NextAbsent(index: seq<nat>, items: Items, next: nat)
    requires Indexed(index, items) && (forall n :: n in items ==> n >= next)
    requires index == [] || index[0] != next
    ensures next !in items
  {
    IndexedKeys(index, items);
    if index != [] {
      RootIsLeastKey(index, items);
    }
  }

  lemma {:induction false} Once(s: seq<Tx>, x: Tx)
    requires forall i, j :: 0 <= i < j < |s| ==> s[i].nonce != s[j].nonce
    ensures multiset(s)[x] <= 1
  {
    if s != [] {
      Once(s[1..], x);
      assert s == [s[0]] + s[1..];
      if s[0] == x {
        assert x !in s[1..];
      }
    }
  }

  lemma SortedIsFlat(all: seq<Tx>, items: Items)
    requires ByNonce(items) && forall tx :: tx in all <==> Holds(items, tx)
    requires forall i, j :: 0 <= i < j < |all| ==> all[i].nonce != all[j].nonce
    ensures Heap.Sort(all, TxNonce()) == Flat(items)
  {
    hide Heap.Sort, Flat;
    var s := Heap.Sort(all, TxNonce());
    Heap.SortSorts(all, TxNonce());
    forall tx ensures tx in s <==> tx in all {
      assert tx in s <==> tx in multiset(s);
      assert tx in all <==> tx in multiset(all);
    }
    forall i, j | 0 <= i < j < |s| ensures s[i].nonce < s[j].nonce {
      assert s[i] in s && s[j] in s;
      if s[i].nonce == s[j].nonce {
        Twice(s, i, j);
        Once(all, s[i]);
      }
    }
    FlatUnique(s, items);
  }
}
