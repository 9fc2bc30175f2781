/**
 * The transactions of one account in the pool, with cached upper bounds on what
 * they cost (core/tx_list.go, txList).
 */
module TxList {
  import opened Wrappers
  import opened TxItems
  import opened TxSortedMap

  const MAX_NONCE: nat := 0xFFFF_FFFF_FFFF_FFFF

  /** No gaps between the nonces. */
  ghost predicate Contiguous(items: Items) {
    forall a, b, c :: a in items && c in items && a < b < c ==> b in items
  }

  predicate TooExpensive(tx: Tx, costLimit: nat, gasLimit: nat) {
    tx.cost > costLimit || tx.gas > gasLimit
  }

  /** What a filter leaves: the affordable transactions, in strict mode only those
      before the first one that is not. */
  ghost function Survivors(items: Items, strict: bool, costLimit: nat, gasLimit: nat): Items {
    map n | n in items && !TooExpensive(items[n], costLimit, gasLimit)
         && (strict ==> forall m :: m in items && TooExpensive(items[m], costLimit, gasLimit) ==> n < m) :: items[n]
  }

  ghost function UpTo(items: Items, nonce: nat): Items {
    map n | n in items && n <= nonce :: items[n]
  }

  ghost function Before(items: Items, nonce: nat): Items {
    map n | n in items && n < nonce :: items[n]
  }

  /** Three lists that together are the old contents, each transaction in exactly
      one of them. */
  ghost predicate Partition(before: Items, kept: Items, removed: seq<Tx>, invalids: seq<Tx>) {
    && (forall tx :: Holds(before, tx) <==> Holds(kept, tx) || tx in removed || tx in invalids)
    && |before| == |kept| + |removed| + |invalids|
  }

  ghost predicate Sub(a: Items, b: Items) {
    forall n :: n in a ==> n in b && a[n] == b[n]
  }

  lemma TwoRemovals(before: Items, middle: Items, after: Items, removed: seq<Tx>, invalids: seq<Tx>)
    requires Sub(middle, before) && Sub(after, middle)
    requires IsRemoved(before, middle, removed) && IsRemoved(middle, after, invalids)
    ensures Partition(before, after, removed, invalids)
  {
    forall tx ensures Holds(before, tx) <==> Holds(after, tx) || tx in removed || tx in invalids {
      if Holds(before, tx) && tx.nonce in middle {
        assert Holds(middle, tx);
      }
    }
  }

  /** The affordable transactions. */
  ghost function Affordable(items: Items, costLimit: nat, gasLimit: nat): Items {
    map n | n in items && !TooExpensive(items[n], costLimit, gasLimit) :: items[n]
  }

  lemma NothingTooExpensive(items: Items, strict: bool, costLimit: nat, gasLimit: nat)
    requires forall n :: n in items ==> !TooExpensive(items[n], costLimit, gasLimit)
    ensures Survivors(items, strict, costLimit, gasLimit) == items == Affordable(items, costLimit, gasLimit)
    ensures Partition(items, items, [], [])
  {
  }

  lemma RemovedAreExpensive(items: Items, removed: seq<Tx>, costLimit: nat, gasLimit: nat)
    requires IsRemoved(items, Affordable(items, costLimit, gasLimit), removed)
    ensures forall tx :: tx in removed <==> Holds(items, tx) && TooExpensive(tx, costLimit, gasLimit)
    ensures removed == [] ==> forall n :: n in items && items[n].nonce == n ==> !TooExpensive(items[n], costLimit, gasLimit)
  {
    forall n | n in items && items[n].nonce == n && TooExpensive(items[n], costLimit, gasLimit) ensures removed != [] {
      assert Holds(items, items[n]);
    }
  }

  /** Cutting off above the lowest expensive nonce leaves the strict survivors. */
  lemma CutAbove(items: Items, lowest: nat, costLimit: nat, gasLimit: nat)
    requires ByNonce(items) && lowest in items && TooExpensive(items[lowest], costLimit, gasLimit)
    requires forall n :: n in items && TooExpensive(items[n], costLimit, gasLimit) ==> lowest <= n
    ensures var middle := Affordable(items, costLimit, gasLimit);
            UpTo(middle, lowest) == Survivors(items, true, costLimit, gasLimit)
  {
  }

  lemma SurvivorsContiguous(items: Items, costLimit: nat, gasLimit: nat)
    requires Contiguous(items)
    ensures Contiguous(Survivors(items, true, costLimit, gasLimit))
  {
    var kept := Survivors(items, true, costLimit, gasLimit);
    forall a, b, c | a in kept && c in kept && a < b < c ensures b in kept {
      assert b in items;
    }
  }

  lemma BeforeAre(items: Items, nonce: nat)
    ensures forall n :: n in Before(items, nonce) <==> n in items && n < nonce
  {
  }

  lemma BeforeContiguous(items: Items, nonce: nat)
    requires Contiguous(items)
    ensures Contiguous(Before(items, nonce))
  {
  }

  /** Taking one nonce out and then everything above it. */
  lemma CutAt(items: Items, nonce: nat)
    requires ByNonce(items) && nonce in items
    ensures var middle := items - {nonce};
            UpTo(middle, nonce) == Before(items, nonce)
    ensures IsRemoved(items, items - {nonce}, [items[nonce]])
    ensures Sub(items - {nonce}, items) && Sub(Before(items, nonce), items - {nonce})
            && Sub(items - {nonce}, items - {nonce})
  {
    Smaller(items, nonce);
  }

  class List {
    const strict: bool
    const txs: SortedMap
    var costcap: nat
    var gascap: nat

    /** The caps bound every transaction held. */
    ghost predicate Capped()
      reads this, txs
    {
      Bounded(txs.items, costcap, gascap)
    }

    ghost predicate Valid()
      reads this, txs
    {
      txs.Valid() && Capped()
    }

    constructor (strict: bool)
      ensures Valid() && fresh(txs) && this.strict == strict && txs.items == map[]
    {
      this.strict := strict;
      txs := new SortedMap();
      costcap, gascap := 0, 0;
    }

    /** Add: a transaction replaces one with the same nonce only for a higher
        price, and by at least the given percentage. */
    method Add(tx: Tx, priceBump: nat) returns (inserted: bool, replaced: Option<Tx>)
      requires Valid()
      modifies this, txs
      ensures Valid()
      ensures inserted <==> (tx.nonce in old(txs.items) ==>
                var o := old(txs.items)[tx.nonce]; o.price < tx.price && o.price * (100 + priceBump) / 100 <= tx.price)
      ensures txs.items == if inserted then old(txs.items)[tx.nonce := tx] else old(txs.items)
      ensures replaced == if inserted && tx.nonce in old(txs.items) then Some(old(txs.items)[tx.nonce]) else None
    {
      var prev := txs.Get(tx.nonce);
      if prev.Some? {
        var threshold := prev.value.price * (100 + priceBump) / 100;
        if prev.value.price >= tx.price || threshold > tx.price {
          return false, None;
        }
      }
      txs.Put(tx);
      if costcap < tx.cost {
        costcap := tx.cost;
      }
      if gascap < tx.gas {
        gascap := tx.gas;
      }
      return true, prev;
    }

    method Forward(threshold: nat) returns (removed: seq<Tx>)
      requires Valid()
      modifies txs
      ensures Valid() && txs.items == From(old(txs.items), threshold)
      ensures removed + Flat(txs.items) == Flat(old(txs.items))
    {
      removed := txs.Forward(threshold);
    }

    method Cap(threshold: nat) returns (drops: seq<Tx>)
      requires Valid()
      modifies txs
      ensures Valid() && txs.items == Lowest(old(txs.items), threshold)
      ensures Flat(txs.items) + Reversed(drops) == Flat(old(txs.items))
    {
      drops := txs.Cap(threshold);
    }

    method DropExpensive(costLimit: nat, gasLimit: nat) returns (removed: seq<Tx>)
      requires txs.Valid()
      modifies txs
      ensures txs.Valid() && txs.items == Affordable(old(txs.items), costLimit, gasLimit)
      ensures IsRemoved(old(txs.items), txs.items, removed)
    {
      hide IsRemoved, SortedMap.Valid;
      removed := txs.Filter((tx: Tx) => TooExpensive(tx, costLimit, gasLimit));
    }

    method DropAbove(nonce: nat) returns (removed: seq<Tx>)
      requires txs.Valid()
      modifies txs
      ensures txs.Valid() && txs.items == UpTo(old(txs.items), nonce)
      ensures IsRemoved(old(txs.items), txs.items, removed)
    {
      hide IsRemoved;
      removed := txs.Filter((tx: Tx) => tx.nonce > nonce);
    }

    /** Filter: removes what is too expensive, and in strict mode what follows it.
        The cached caps decide whether there is anything to do. */
    method Filter(costLimit: nat, gasLimit: nat) returns (removed: seq<Tx>, invalids: seq<Tx>)
      requires Valid() && forall n :: n in txs.items ==> n <= MAX_NONCE
      modifies this, txs
      ensures Valid() && txs.items == Survivors(old(txs.items), strict, costLimit, gasLimit)
      ensures forall tx :: tx in removed <==> Holds(old(txs.items), tx) && (tx.cost > costLimit || tx.gas > gasLimit)
      ensures forall n :: n in txs.items <==>
                && n in old(txs.items) && old(txs.items)[n].cost <= costLimit && old(txs.items)[n].gas <= gasLimit
                && (strict ==> forall tx :: tx in removed ==> n < tx.nonce)
      ensures Partition(old(txs.items), txs.items, removed, invalids)
      ensures old(Contiguous(txs.items)) && strict ==> Contiguous(txs.items)
    {
      hide Partition, Survivors, Contiguous, TooExpensive, SortedMap.Valid, Bounded;
      ghost var before := txs.items;
      ByNonceOf();
      removed, invalids := Sift(costLimit, gasLimit);
      SurvivorsAre(before, strict, removed, costLimit, gasLimit);
    }

    method Sift(costLimit: nat, gasLimit: nat) returns (removed: seq<Tx>, invalids: seq<Tx>)
      requires Valid() && forall n :: n in txs.items ==> n <= MAX_NONCE
      modifies this, txs
      ensures Valid() && txs.items == Survivors(old(txs.items), strict, costLimit, gasLimit)
      ensures forall tx :: tx in removed <==> Holds(old(txs.items), tx) && TooExpensive(tx, costLimit, gasLimit)
      ensures Partition(old(txs.items), txs.items, removed, invalids)
      ensures old(Contiguous(txs.items)) && strict ==> Contiguous(txs.items)
    {
      hide IsRemoved, Partition, Survivors, Contiguous, TooExpensive, SortedMap.Valid;
      ghost var before := txs.items;
      if costcap <= costLimit && gascap <= gasLimit {
        WithinCaps(costLimit, gasLimit);
        NothingTooExpensive(before, strict, costLimit, gasLimit);
        return [], [];
      }
      ByNonceOf();
      costcap, gascap := costLimit, gasLimit;
      removed := DropExpensive(costLimit, gasLimit);
      invalids := [];
      ghost var middle := txs.items;
      RemovedAreExpensive(before, removed, costLimit, gasLimit);
      if strict && |removed| > 0 {
        var lowest := LowestNonce(removed);
        invalids := DropAbove(lowest);
        CutAbove(before, lowest, costLimit, gasLimit);
      } else {
        NothingRemoved(middle);
        LooseSurvivors(before, strict, removed, costLimit, gasLimit);
      }
      TwoRemovals(before, middle, txs.items, removed, invalids);
      if strict && Contiguous(before) {
        SurvivorsContiguous(before, costLimit, gasLimit);
      }
      SurvivorsAffordable(before, strict, costLimit, gasLimit);
    }

    lemma WithinCaps(costLimit: nat, gasLimit: nat)
      requires Capped() && costcap <= costLimit && gascap <= gasLimit
      ensures forall n :: n in txs.items ==> !TooExpensive(txs.items[n], costLimit, gasLimit)
    {
    }

    lemma ByNonceOf()
      requires txs.Valid()
      ensures ByNonce(txs.items)
    {
    }

    /** Remove: takes a transaction out, and in strict mode what follows it. */
    method Remove(tx: Tx) returns (found: bool, invalids: seq<Tx>)
      requires Valid()
      modifies txs
      ensures Valid() && found == (tx.nonce in old(txs.items))
      ensures txs.items == if !found then old(txs.items)
                           else if strict then Before(old(txs.items), tx.nonce) else old(txs.items) - {tx.nonce}
      ensures found ==> forall n :: n in txs.items <==>
                n in old(txs.items) && if strict then n < tx.nonce else n != tx.nonce
      ensures found ==> Partition(old(txs.items), txs.items, [old(txs.items)[tx.nonce]], invalids)
      ensures !found ==> invalids == []
      ensures old(Contiguous(txs.items)) && strict ==> Contiguous(txs.items)
    {
      hide IsRemoved, Partition, Contiguous, SortedMap.Valid, UpTo, Before, Sub, Bounded, ByNonce;
      ghost var before := txs.items;
      ByNonceOf();
      var nonce := tx.nonce;
      found := txs.Remove(nonce);
      invalids := [];
      ghost var middle := txs.items;
      NothingRemoved(middle);
      if !found {
        assert txs.items == before;
        return;
      }
      CutAt(before, nonce);
      if strict {
        invalids := DropAbove(nonce);
        BeforeAre(before, nonce);
        if Contiguous(before) {
          BeforeContiguous(before, nonce);
        }
      }
      TwoRemovals(before, middle, txs.items, [before[nonce]], invalids);
      StillCapped(before, middle, txs.items, costcap, gascap);
    }
  }

  lemma StillCapped(before: Items, middle: Items, after: Items, costcap: nat, gascap: nat)
    requires Sub(middle, before) && Sub(after, middle)
    ensures Bounded(before, costcap, gascap) ==> Bounded(after, costcap, gascap)
  {
  }

  ghost predicate Bounded(items: Items, costcap: nat, gascap: nat) {
    forall n :: n in items ==> items[n].cost <= costcap && items[n].gas <= gascap
  }

  lemma LooseSurvivors(items: Items, strict: bool, removed: seq<Tx>, costLimit: nat, gasLimit: nat)
    requires ByNonce(items) && (strict ==> removed == [])
    requires IsRemoved(items, Affordable(items, costLimit, gasLimit), removed)
    ensures Affordable(items, costLimit, gasLimit) == Survivors(items, strict, costLimit, gasLimit)
  {
    RemovedAreExpensive(items, removed, costLimit, gasLimit);
  }

  lemma SurvivorsAre(items: Items, strict: bool, removed: seq<Tx>, costLimit: nat, gasLimit: nat)
    requires ByNonce(items)
    requires forall tx :: tx in removed <==> Holds(items, tx) && TooExpensive(tx, costLimit, gasLimit)
    ensures forall tx :: tx in removed <==> Holds(items, tx) && (tx.cost > costLimit || tx.gas > gasLimit)
    ensures forall n :: n in Survivors(items, strict, costLimit, gasLimit) <==>
              && n in items && items[n].cost <= costLimit && items[n].gas <= gasLimit
              && (strict ==> forall tx :: tx in removed ==> n < tx.nonce)
  {
    forall n | n in items
      ensures (forall tx :: tx in removed ==> n < tx.nonce) <==>
                forall m :: m in items && TooExpensive(items[m], costLimit, gasLimit) ==> n < m
    {
      if forall tx :: tx in removed ==> n < tx.nonce {
        forall m | m in items && TooExpensive(items[m], costLimit, gasLimit) ensures n < m {
          assert items[m] in removed;
        }
      }
    }
  }

  lemma SurvivorsAffordable(items: Items, strict: bool, costLimit: nat, gasLimit: nat)
    ensures var kept := Survivors(items, strict, costLimit, gasLimit);
            forall n :: n in kept ==> kept[n].cost <= costLimit && kept[n].gas <= gasLimit
  {
  }

  method LowestNonce(txs: seq<Tx>) returns (lowest: nat)
    requires txs != [] && forall tx :: tx in txs ==> tx.nonce <= MAX_NONCE
    ensures exists tx :: tx in txs && tx.nonce == lowest
    ensures forall tx :: tx in txs ==> lowest <= tx.nonce
  {
    lowest := MAX_NONCE;
    for i := 0 to |txs|
      invariant forall j :: 0 <= j < i ==> lowest <= txs[j].nonce
      invariant lowest == MAX_NONCE || exists j :: 0 <= j < i && txs[j].nonce == lowest
    {
      if lowest > txs[i].nonce {
        lowest := txs[i].nonce;
      }
    }
    if lowest == MAX_NONCE {
      assert txs[0] in txs;
      assert txs[0].nonce == lowest;
    }
  }
}
