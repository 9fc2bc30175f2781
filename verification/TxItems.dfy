/**
 * Transactions of one account by nonce: the plain map that the pool's list
 * structures implement, with its sorted contents and its lowest part.
 */
module TxItems {

  type Address = nat

  datatype Tx = Tx(hash: nat, nonce: nat, price: nat, cost: nat, gas: nat, sender: Address)

  type Items = map<nat, Tx>

  predicate ByNonce(items: Items) {
    forall n :: n in items ==> items[n].nonce == n
  }

  // ----- extreme keys -----

  predicate IsLeast(keys: set<nat>, n: nat) {
    n in keys && forall m :: m in keys ==> n <= m
  }

  predicate IsGreatest(keys: set<nat>, n: nat) {
    n in keys && forall m :: m in keys ==> m <= n
  }

  lemma {:induction false} HasLeast(keys: set<nat>)
    requires keys != {}
    ensures exists n :: IsLeast(keys, n)
    decreases |keys|
  {
    var k :| k in keys;
    if keys == {k} {
      assert IsLeast(keys, k);
    } else {
      HasLeast(keys - {k});
      var n :| IsLeast(keys - {k}, n);
      assert forall m :: m in keys ==> m == k || m in keys - {k};
      assert IsLeast(keys, if k < n then k else n);
    }
  }

  lemma {:induction false} HasGreatest(keys: set<nat>)
    requires keys != {}
    ensures exists n :: IsGreatest(keys, n)
    decreases |keys|
  {
    var k :| k in keys;
    if keys == {k} {
      assert IsGreatest(keys, k);
    } else {
      HasGreatest(keys - {k});
      var n :| IsGreatest(keys - {k}, n);
      assert forall m :: m in keys ==> m == k || m in keys - {k};
      assert IsGreatest(keys, if k > n then k else n);
    }
  }

  ghost function Least(keys: set<nat>): (n: nat)
    requires keys != {}
    ensures IsLeast(keys, n)
  {
    HasLeast(keys);
    var n :| IsLeast(keys, n); n
  }

  // ----- contents in nonce order -----

  ghost function Flat(items: Items): seq<Tx>
    decreases |items|
  {
    if items == map[] then []
    else
      var n := Least(items.Keys);
      assert |items - {n}| < |items| by { Smaller(items, n); }
      [items[n]] + Flat(items - {n})
  }

  lemma Smaller(items: Items, n: nat)
    requires n in items
    ensures |items - {n}| == |items| - 1
  {
    assert (items - {n}).Keys == items.Keys - {n};
    assert |items.Keys - {n}| == |items.Keys| - 1;
  }

  lemma FlatFirst(items: Items, n: nat)
    requires IsLeast(items.Keys, n)
    ensures Flat(items) == [items[n]] + Flat(items - {n})
  {
    assert items != map[];
    assert Least(items.Keys) == n;
  }

  lemma {:induction false} FlatLast(items: Items, n: nat)
    requires IsGreatest(items.Keys, n)
    ensures Flat(items) == Flat(items - {n}) + [items[n]]
    decreases |items|
  {
    var m := Least(items.Keys);
    Smaller(items, m);
    if m == n {
      assert items.Keys == {n};
      assert items - {n} == map[];
    } else {
      FlatLast(items - {m}, n);
      assert items - {m} - {n} == items - {n} - {m};
      assert IsLeast((items - {n}).Keys, m);
      FlatFirst(items - {n}, m);
    }
  }

  predicate Holds(items: Items, tx: Tx) {
    tx.nonce in items && items[tx.nonce] == tx
  }

  ghost predicate Increasing(s: seq<Tx>) {
    forall i, j :: 0 <= i < j < |s| ==> s[i].nonce < s[j].nonce
  }

  /** Strictly increasing in nonce, and exactly the contents: there is only one
      such sequence. */
  ghost predicate IsFlat(s: seq<Tx>, items: Items) {
    Increasing(s) && forall tx :: tx in s <==> Holds(items, tx)
  }

  lemma HoldsWithout(items: Items, n: nat, tx: Tx)
    requires ByNonce(items) && n in items
    ensures Holds(items, tx) <==> tx == items[n] || Holds(items - {n}, tx)
    ensures Holds(items - {n}, tx) ==> tx.nonce != n
  {
  }

  lemma InCons(x: Tx, rest: seq<Tx>)
    ensures forall tx :: tx in [x] + rest <==> tx == x || tx in rest
  {
  }

  lemma FlatCons(items: Items, n: nat, rest: seq<Tx>)
    requires ByNonce(items) && IsLeast(items.Keys, n) && IsFlat(rest, items - {n})
    ensures IsFlat([items[n]] + rest, items)
  {
    hide Holds;
    InCons(items[n], rest);
    forall tx ensures Holds(items, tx) <==> tx == items[n] || Holds(items - {n}, tx) {
      HoldsWithout(items, n, tx);
    }
    forall j | 0 <= j < |rest| ensures n < rest[j].nonce {
      assert rest[j] in rest;
      HoldsWithout(items, n, rest[j]);
      KeyOf(items, rest[j]);
    }
  }

  lemma KeyOf(items: Items, tx: Tx)
    requires Holds(items, tx)
    ensures tx.nonce in items
  {
  }

  lemma FlatTail(items: Items, n: nat, rest: seq<Tx>)
    requires ByNonce(items) && n in items && IsFlat([items[n]] + rest, items)
    ensures IsFlat(rest, items - {n})
  {
    hide Holds;
    var s := [items[n]] + rest;
    InCons(items[n], rest);
    assert forall j :: 0 <= j < |rest| ==> rest[j] == s[j+1];
    forall tx ensures tx in rest <==> Holds(items - {n}, tx) {
      HoldsWithout(items, n, tx);
      if tx in rest {
        var j :| 0 <= j < |rest| && rest[j] == tx;
        assert s[0].nonce < s[j+1].nonce;
      }
    }
  }

  lemma {:induction false} FlatIsFlat(items: Items)
    requires ByNonce(items)
    ensures IsFlat(Flat(items), items) && |Flat(items)| == |items|
    decreases |items|
  {
    hide IsFlat;
    if items != map[] {
      var n := Least(items.Keys);
      Smaller(items, n);
      FlatIsFlat(items - {n});
      FlatCons(items, n, Flat(items - {n}));
    } else {
      EmptyFlat([]);
    }
  }

  lemma EmptyFlat(s: seq<Tx>)
    ensures IsFlat(s, map[]) <==> s == []
  {
    if s != [] {
      assert s[0] in s;
    }
  }

  lemma LeastFirst(s: seq<Tx>, items: Items, n: nat)
    requires ByNonce(items) && IsFlat(s, items) && IsLeast(items.Keys, n)
    ensures s != [] && s[0] == items[n]
  {
    assert Holds(items, items[n]);
    var k :| 0 <= k < |s| && s[k] == items[n];
    assert s[0] in s;
  }

  lemma {:induction false} FlatUnique(s: seq<Tx>, items: Items)
    requires ByNonce(items) && IsFlat(s, items)
    ensures s == Flat(items)
    decreases |items|
  {
    hide IsFlat;
    if items == map[] {
      EmptyFlat(s);
    } else {
      var n := Least(items.Keys);
      Smaller(items, n);
      LeastFirst(s, items, n);
      assert s == [items[n]] + s[1..];
      FlatTail(items, n, s[1..]);
      FlatUnique(s[1..], items - {n});
    }
  }

  // ----- the lowest nonces -----

  ghost function Under(keys: set<nat>, n: nat): set<nat> {
    set m | m in keys && m < n
  }

  ghost function Rank(items: Items, n: nat): nat {
    |Under(items.Keys, n)|
  }

  /** The transactions with the k lowest nonces. */
  ghost function Lowest(items: Items, k: nat): Items {
    map n | n in items && Rank(items, n) < k :: items[n]
  }

  lemma LowestAll(items: Items, k: nat)
    requires k >= |items|
    ensures Lowest(items, k) == items
  {
    forall n | n in items ensures Rank(items, n) < k {
      Strict(Under(items.Keys, n), items.Keys, n);
    }
  }

  lemma Strict(a: set<nat>, b: set<nat>, n: nat)
    requires a <= b && n in b && n !in a
    ensures |a| < |b|
  {
    assert a <= b - {n};
    Subset(a, b - {n});
  }

  lemma {:induction false} Subset(a: set<nat>, b: set<nat>)
    requires a <= b
    ensures |a| <= |b|
    decreases a
  {
    if a != {} {
      var x :| x in a;
      Subset(a - {x}, b - {x});
    }
  }

  /** Dropping the highest nonce leaves the lowest ones. */
  lemma DropGreatest(items: Items, n: nat)
    requires IsGreatest(items.Keys, n)
    ensures items - {n} == Lowest(items, |items| - 1)
  {
    assert Under(items.Keys, n) == items.Keys - {n};
    forall m | m in items && m != n ensures Rank(items, m) < |items| - 1 {
      Strict(Under(items.Keys, m), items.Keys - {n}, m);
    }
  }

  lemma LowestTwice(items: Items, a: nat, b: nat)
    requires b <= a
    ensures Lowest(Lowest(items, a), b) == Lowest(items, b)
  {
    var low := Lowest(items, a);
    forall n | n in low ensures Rank(low, n) == Rank(items, n) {
      forall m | m in Under(items.Keys, n) ensures m in low {
        Subset(Under(items.Keys, m), Under(items.Keys, n));
      }
      assert Under(low.Keys, n) == Under(items.Keys, n);
    }
  }

  lemma KeysNotEmpty(items: Items)
    ensures |items| > 0 ==> items.Keys != {}
  {
  }

  lemma {:induction false} LowestSize(items: Items, k: nat)
    ensures |Lowest(items, k)| == if k <= |items| then k else |items|
    decreases |items|
  {
    hide Lowest;
    if k >= |items| {
      LowestAll(items, k);
    } else {
      KeysNotEmpty(items);
      HasGreatest(items.Keys);
      var n :| IsGreatest(items.Keys, n);
      Smaller(items, n);
      DropGreatest(items, n);
      LowestTwice(items, |items| - 1, k);
      LowestSize(items - {n}, k);
    }
  }

  /** What is kept lies below what is dropped. */
  lemma LowestBelow(items: Items, k: nat, m: nat, n: nat)
    requires m in Lowest(items, k) && n in items && n !in Lowest(items, k)
    ensures m < n
  {
    if n <= m {
      Subset(Under(items.Keys, n), Under(items.Keys, m));
    }
  }

  lemma Twice<T>(s: seq<T>, i: nat, j: nat)
    requires i < j < |s| && s[i] == s[j]
    ensures multiset(s)[s[i]] >= 2
  {
    assert s == s[..j] + [s[j]] + s[j+1..];
    assert s[i] in s[..j];
    assert s[i] in multiset(s[..j]);
  }
}
