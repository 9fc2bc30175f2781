/**
 * The pool's limit on pending transactions, core/tx_pool.go: when the pending
 * transactions exceed GlobalSlots, the largest non-local accounts are cut back
 * round by round, always dropping highest nonces, until the total fits or every
 * account is down to AccountSlots. The result is a water level.
 */
module PendingLimit {
  import opened Sums
  import opened TxItems

  type Pending = map<Address, Items>
  type Nonces = map<Address, nat>

  ghost function Length(pending: Pending): Address -> int {
    (a: Address) => if a in pending then |pending[a]| else 0
  }

  ghost function Total(pending: Pending): int {
    Sum(pending.Keys, Length(pending))
  }

  /** Everything pending, with the given accounts cut to their k lowest nonces. */
  ghost function Cut(pending: Pending, accounts: set<Address>, k: nat): Pending {
    map a | a in pending :: if a in accounts then Lowest(pending[a], k) else pending[a]
  }

  /** Everything pending, with every account that is not local cut to level k. */
  ghost function Level(pending: Pending, locals: set<Address>, k: nat): Pending {
    map a | a in pending :: if a in locals then pending[a] else Lowest(pending[a], k)
  }

  /** The outcome of the limit: level k, reached only because one level more is too
      much, and missing the limit only if the guaranteed slots are all that is left. */
  ghost predicate IsWaterLevel(before: Pending, locals: set<Address>, slots: nat, limit: nat, k: nat) {
    && k >= slots
    && (Level(before, locals, k) != before ==> Total(Level(before, locals, k + 1)) > limit)
    && (Total(Level(before, locals, k)) <= limit || k == slots)
  }

  // ----- the bookkeeping of dropped transactions -----

  ghost predicate Shrinks(before: Pending, after: Pending) {
    && after.Keys == before.Keys
    && forall a, n :: a in after && n in after[a] ==> n in before[a] && after[a][n] == before[a][n]
  }

  ghost predicate IsDropped(before: Pending, after: Pending, a: Address, n: nat) {
    a in before && a in after && n in before[a] && n !in after[a]
  }

  ghost predicate IsLost(before: Pending, after: Pending, hash: nat) {
    exists a, n :: IsDropped(before, after, a, n) && before[a][n].hash == hash
  }

  function Nonce(nonces: Nonces, a: Address): nat {
    if a in nonces then nonces[a] else 0
  }

  /** The account nonce is the lower of what it was and the lowest dropped nonce. */
  ghost predicate IsRewound(before: Pending, after: Pending, was: Nonces, now: Nonces, a: Address) {
    && Nonce(now, a) <= Nonce(was, a)
    && (forall n :: IsDropped(before, after, a, n) ==> Nonce(now, a) <= n)
    && (Nonce(now, a) == Nonce(was, a) || IsDropped(before, after, a, Nonce(now, a)))
  }

  /** Dropped transactions have left the pool and account nonces are rewound to them. */
  ghost predicate Follows(before: Pending, after: Pending, was: Nonces, now: Nonces,
                          pool: set<nat>, left: set<nat>) {
    && Shrinks(before, after)
    && (forall h :: h in left <==> h in pool && !IsLost(before, after, h))
    && (forall a :: IsRewound(before, after, was, now, a))
  }

  /** The nonce of an account with dropped transactions is at most the lowest of them; otherwise,
      and if it was lower already, it is as it was. */
  lemma RewoundIs(before: Pending, after: Pending, was: Nonces, now: Nonces, pool: set<nat>, left: set<nat>, a: Address)
    requires Follows(before, after, was, now, pool, left) && a in now && a in was
    ensures now[a] <= was[a] && (now[a] == was[a] || IsDropped(before, after, a, now[a]))
    ensures forall n :: IsDropped(before, after, a, n) ==> now[a] <= n
  {
    assert IsRewound(before, after, was, now, a);
  }

  lemma FollowsStart(before: Pending, nonces: Nonces, pool: set<nat>)
    ensures Follows(before, before, nonces, nonces, pool, pool)
  {
  }

  lemma DropOne(before: Pending, after: Pending, a: Address, n: nat)
    requires Shrinks(before, after) && a in after && n in after[a]
    ensures var after' := after[a := after[a] - {n}];
            && Shrinks(before, after')
            && forall b, m :: IsDropped(before, after', b, m) <==> IsDropped(before, after, b, m) || (b == a && m == n)
  {
  }

  lemma LostOne(before: Pending, after: Pending, a: Address, n: nat, h: nat)
    requires Shrinks(before, after) && a in after && n in after[a]
    ensures var after' := after[a := after[a] - {n}];
            IsLost(before, after', h) <==> IsLost(before, after, h) || h == after[a][n].hash
  {
    hide IsDropped;
    var after' := after[a := after[a] - {n}];
    DropOne(before, after, a, n);
    assert IsDropped(before, after', a, n);
    DroppedIn(before, after, after', a, n);
    if IsLost(before, after, h) {
      var b, m :| IsDropped(before, after, b, m) && before[b][m].hash == h;
      assert IsDropped(before, after', b, m);
    }
  }

  lemma DroppedIn(before: Pending, after: Pending, after': Pending, a: Address, n: nat)
    requires Shrinks(before, after) && a in after && n in after[a]
    ensures a in before && n in before[a] && before[a][n] == after[a][n]
    ensures forall b, m :: IsDropped(before, after, b, m) || IsDropped(before, after', b, m) ==> b in before && m in before[b]
  {
  }

  lemma RewoundOne(before: Pending, after: Pending, was: Nonces, now: Nonces, a: Address, n: nat, b: Address)
    requires Shrinks(before, after) && a in after && n in after[a] && IsRewound(before, after, was, now, b)
    ensures var now' := if Nonce(now, a) > n then now[a := n] else now;
            IsRewound(before, after[a := after[a] - {n}], was, now', b)
  {
    hide IsDropped;
    DropOne(before, after, a, n);
  }

  lemma FollowsOne(before: Pending, after: Pending, was: Nonces, now: Nonces, pool: set<nat>, left: set<nat>,
                   a: Address, n: nat)
    requires Follows(before, after, was, now, pool, left) && a in after && n in after[a]
    ensures var now' := if Nonce(now, a) > n then now[a := n] else now;
            Follows(before, after[a := after[a] - {n}], was, now', pool, left - {after[a][n].hash})
  {
    hide IsLost, IsRewound;
    var after' := after[a := after[a] - {n}];
    DropOne(before, after, a, n);
    forall h ensures IsLost(before, after', h) <==> IsLost(before, after, h) || h == after[a][n].hash {
      LostOne(before, after, a, n, h);
    }
    var now' := if Nonce(now, a) > n then now[a := n] else now;
    forall b ensures IsRewound(before, after', was, now', b) {
      RewoundOne(before, after, was, now, a, n, b);
    }
  }

  // ----- totals -----

  lemma TotalUpdate(pending: Pending, a: Address, items: Items)
    requires a in pending
    ensures Total(pending[a := items]) == Total(pending) - |pending[a]| + |items|
  {
    var after := pending[a := items];
    assert after.Keys == pending.Keys;
    SumSplit(pending.Keys, Length(pending), a);
    SumSplit(pending.Keys, Length(after), a);
    SumCongruence(pending.Keys - {a}, Length(pending), Length(after));
  }

  lemma {:induction false} SumAtMost(s: set<Address>, f: Address -> int, g: Address -> int)
    requires forall a :: a in s ==> 0 <= f(a) <= g(a)
    ensures 0 <= Sum(s, f) <= Sum(s, g)
    decreases |s|
  {
    if s != {} {
      SumAtMost(s - {Pick(s)}, f, g);
    }
  }

  lemma LengthAtMostTotal(pending: Pending, a: Address)
    requires a in pending
    ensures |pending[a]| <= Total(pending)
  {
    SumSplit(pending.Keys, Length(pending), a);
    SumAtMost(pending.Keys - {a}, Length(pending), Length(pending));
  }

  lemma TotalIsNat(pending: Pending)
    ensures Total(pending) >= 0
  {
    SumAtMost(pending.Keys, Length(pending), Length(pending));
  }

  lemma LevelGrows(before: Pending, locals: set<Address>, j: nat, k: nat)
    requires j <= k
    ensures Total(Level(before, locals, j)) <= Total(Level(before, locals, k))
  {
    var low, high := Level(before, locals, j), Level(before, locals, k);
    forall a | a in before ensures Length(low)(a) <= Length(high)(a) {
      LowestSize(before[a], j);
      LowestSize(before[a], k);
    }
    assert low.Keys == before.Keys == high.Keys;
    SumAtMost(before.Keys, Length(low), Length(high));
  }

  lemma LevelKeeps(before: Pending, locals: set<Address>, j: nat, k: nat)
    requires j <= k && Level(before, locals, j) == before
    ensures Level(before, locals, k) == before
  {
    forall a | a in before && a !in locals ensures Lowest(before[a], k) == before[a] {
      assert Level(before, locals, j)[a] == Lowest(before[a], j);
      LowestSize(before[a], j);
      LowestAll(before[a], k);
    }
  }

  /** The limit decides the outcome: any two water levels leave the same transactions. */
  lemma WaterLevelIsUnique(before: Pending, locals: set<Address>, slots: nat, limit: nat, j: nat, k: nat)
    requires IsWaterLevel(before, locals, slots, limit, j) && IsWaterLevel(before, locals, slots, limit, k)
    ensures Level(before, locals, j) == Level(before, locals, k)
  {
    hide Level, Total;
    var low, high := if j <= k then j else k, if j <= k then k else j;
    if low < high {
      if Level(before, locals, low) == before {
        LevelKeeps(before, locals, low, high);
      } else {
        LevelGrows(before, locals, low + 1, high);
      }
    }
  }

  // ----- cutting a set of accounts -----

  lemma CutMore(before: Pending, accounts: set<Address>, a: Address, k: nat)
    requires a in before && |before[a]| <= k
    ensures Cut(before, accounts + {a}, k) == Cut(before, accounts, k)
  {
    LowestAll(before[a], k);
  }

  /** Cutting once more the accounts that are long enough to notice. */
  lemma CutDown(before: Pending, accounts: set<Address>, long: set<Address>, k: nat)
    requires long <= accounts <= before.Keys && k > 0
    requires forall a :: a in accounts && a !in long ==> |before[a]| < k
    ensures Cut(Cut(before, accounts, k), long, k - 1) == Cut(before, accounts, k - 1)
  {
    var once, twice, whole := Cut(before, accounts, k), Cut(Cut(before, accounts, k), long, k - 1),
        Cut(before, accounts, k - 1);
    forall a | a in before ensures twice[a] == whole[a] {
      LowestTwice(before[a], k, k - 1);
      if a in accounts && a !in long {
        LowestAll(before[a], k);
        LowestAll(before[a], k - 1);
      }
    }
  }

  /** Accounts that are neither cut nor local are short, so a cut is a level. */
  lemma CutIsLevel(before: Pending, accounts: set<Address>, locals: set<Address>, k: nat)
    requires forall a :: a in accounts ==> a !in locals
    requires forall a :: a in before && a !in locals && a !in accounts ==> |before[a]| <= k
    ensures Cut(before, accounts, k) == Level(before, locals, k)
  {
    forall a | a in before && a !in locals && a !in accounts ensures Lowest(before[a], k) == before[a] {
      LowestAll(before[a], k);
    }
  }

  lemma CutNothing(before: Pending, a: Address, k: nat)
    requires a in before && |before[a]| <= k
    ensures Cut(before, {}, k) == before && Cut(before, {a}, k) == before
  {
    LowestAll(before[a], k);
  }

  lemma HighestAccount(lists: Pending, accounts: set<Address>)
    requires accounts != {} && accounts <= lists.Keys
    ensures exists a :: IsHighest(lists, accounts, a)
    decreases |accounts|
  {
    var a :| a in accounts;
    if accounts == {a} {
      assert IsHighest(lists, accounts, a);
    } else {
      HighestAccount(lists, accounts - {a});
      var b :| IsHighest(lists, accounts - {a}, b);
      assert forall c :: c in accounts ==> c == a || c in accounts - {a};
      assert IsHighest(lists, accounts, if |lists[a]| > |lists[b]| then a else b);
    }
  }

  predicate IsHighest(lists: Pending, accounts: set<Address>, a: Address) {
    a in accounts && accounts <= lists.Keys && forall b :: b in accounts ==> |lists[b]| <= |lists[a]|
  }

  ghost function Members(s: seq<Address>): set<Address> {
    set a | a in s
  }

  ghost predicate Distinct(s: seq<Address>) {
    forall i, j :: 0 <= i < j < |s| ==> s[i] != s[j]
  }

  class Pool {
    var pending: Pending
    var nonces: Nonces
    var all: set<nat>
    const locals: set<Address>
    const accountSlots: nat
    const globalSlots: nat

    constructor (pending: Pending, nonces: Nonces, all: set<nat>, locals: set<Address>, accountSlots: nat, globalSlots: nat)
      ensures this.pending == pending && this.nonces == nonces && this.all == all
      ensures this.locals == locals && this.accountSlots == accountSlots && this.globalSlots == globalSlots
    {
      this.pending, this.nonces, this.all := pending, nonces, all;
      this.locals, this.accountSlots, this.globalSlots := locals, accountSlots, globalSlots;
    }

    method Count() returns (count: nat)
      ensures count == Total(pending)
    {
      count := 0;
      var todo := pending.Keys;
      while todo != {}
        invariant todo <= pending.Keys && count + Sum(todo, Length(pending)) == Total(pending)
      {
        var a :| a in todo;
        SumSplit(todo, Length(pending), a);
        count := count + |pending[a]|;
        todo := todo - {a};
      }
    }

    /** The accounts that may be cut. */
    method Spammers() returns (spammers: set<Address>)
      ensures spammers == High(pending, locals, accountSlots)
    {
      spammers := set a | a in pending && a !in locals && |pending[a]| > accountSlots;
    }

    /** Cap by one: the highest nonce of an account goes, from the pool as well, and
        the account nonce falls back to it. */
    method CutOne(a: Address, ghost before: Pending, ghost was: Nonces, ghost pool: set<nat>)
      requires a in pending && pending[a] != map[]
      requires Follows(before, pending, was, nonces, pool, all)
      modifies this
      ensures Follows(before, pending, was, nonces, pool, all)
      ensures pending == old(pending)[a := Lowest(old(pending)[a], |old(pending)[a]| - 1)]
      ensures Total(pending) == old(Total(pending)) - 1
    {
      hide Follows, Total, Lowest;
      HasGreatest(pending[a].Keys);
      var n :| n in pending[a].Keys && IsGreatest(pending[a].Keys, n);
      var tx := pending[a][n];
      DropGreatest(pending[a], n);
      Smaller(pending[a], n);
      TotalUpdate(pending, a, pending[a] - {n});
      FollowsOne(before, pending, was, nonces, pool, all, a, n);
      pending := pending[a := pending[a] - {n}];
      all := all - {tx.hash};
      if Nonce(nonces, a) > n {
        nonces := nonces[a := n];
      }
    }

    /** One round: every given account loses its highest nonce. */
    method Reduce(accounts: seq<Address>, ghost k: nat, ghost before: Pending, ghost was: Nonces, ghost pool: set<nat>)
      requires k > 0 && Distinct(accounts)
      requires forall a :: a in accounts ==> a in pending && |pending[a]| == k
      requires Follows(before, pending, was, nonces, pool, all)
      modifies this
      ensures Follows(before, pending, was, nonces, pool, all)
      ensures pending == Cut(old(pending), Members(accounts), k - 1)
      ensures Total(pending) == old(Total(pending)) - |accounts|
    {
      hide Follows, Total;
      assert Cut(pending, Members([]), k - 1) == pending;
      for i := 0 to |accounts|
        invariant pending == Cut(old(pending), Members(accounts[..i]), k - 1)
        invariant Follows(before, pending, was, nonces, pool, all)
        invariant Total(pending) == old(Total(pending)) - i
      {
        var a := accounts[i];
        assert a !in accounts[..i];
        CutNext(old(pending), accounts, i, k);
        CutOne(a, before, was, pool);
      }
      assert accounts[..|accounts|] == accounts;
    }

    /** Equalizes allowances while too much is pending. */
    method Limit()
      modifies this
      ensures exists k :: IsWaterLevel(old(pending), locals, accountSlots, globalSlots, k)
                          && pending == Level(old(pending), locals, k)
      ensures Follows(old(pending), pending, old(nonces), nonces, old(all), all)
    {
      hide Follows, Total, Level, IsWaterLevel, Progress, High;
      ghost var before := pending;
      FollowsStart(before, nonces, all);
      var count := Count();
      Start(before, locals, accountSlots, globalSlots);
      ghost var k := count + accountSlots;
      if count <= globalSlots {
        Done(before, [], High(before, locals, accountSlots), locals, accountSlots, globalSlots, k, before, count);
        return;
      }
      var spammers, offenders;
      count, spammers, offenders, k := Equalize(count);
      if count > globalSlots && |offenders| > 0 {
        count, k := LowerAll(count, offenders, k, before, old(nonces), old(all));
      }
      if offenders == [] && spammers == {} {
        NoOffenders(before, spammers, locals, accountSlots, globalSlots, k, pending, count);
        k := accountSlots;
      } else {
        Done(before, offenders, spammers, locals, accountSlots, globalSlots, k, pending, count);
      }
    }

    /** Takes in the offenders, largest first, and cuts those taken in before to the
        length of the newest. */
    method Equalize(total: nat) returns (count: nat, spammers: set<Address>, offenders: seq<Address>, ghost k: nat)
      requires total == Total(pending) > globalSlots
      modifies this
      ensures Progress(old(pending), offenders, spammers, locals, accountSlots, globalSlots, k, pending, count)
      ensures Follows(old(pending), pending, old(nonces), nonces, old(all), all)
      ensures count <= globalSlots || spammers == {}
      ensures offenders != [] ==> k > accountSlots
      ensures count > globalSlots ==> Even(old(pending), offenders, k)
    {
      hide Follows, Total, Progress, High, Even;
      count := total;
      ghost var before, was, pool := pending, nonces, all;
      FollowsStart(before, nonces, all);
      Start(before, locals, accountSlots, globalSlots);
      spammers := Spammers();
      offenders := [];
      k := count + accountSlots;
      EvenStart(before, k);
      while count > globalSlots && spammers != {}
        invariant Progress(before, offenders, spammers, locals, accountSlots, globalSlots, k, pending, count)
        invariant Follows(before, pending, was, nonces, pool, all)
        invariant offenders != [] ==> k > accountSlots
        invariant count > globalSlots ==> Even(before, offenders, k)
        decreases spammers
      {
        SpammersPending(before, offenders, spammers, locals, accountSlots, globalSlots, k, pending, count);
        HighestAccount(pending, spammers);
        var offender :| offender in spammers && IsHighest(pending, spammers, offender);
        ghost var queued := spammers;
        spammers := spammers - {offender};
        if offenders == [] {
          First(before, queued, offender, locals, accountSlots, globalSlots, k, pending, count);
          offenders := [offender];
          k := |pending[offender]|;
        } else {
          Next(before, offenders, queued, offender, locals, accountSlots, globalSlots, k, pending, count);
          count, k := LowerTo(count, offenders + [offender], spammers, k, before, was, pool);
          offenders := offenders + [offender];
        }
      }
    }

    /** Cuts all offenders but the last to the length of the last, or until the total fits. */
    method LowerTo(total: nat, offenders: seq<Address>, ghost spammers: set<Address>, ghost level: nat,
                   ghost before: Pending, ghost was: Nonces, ghost pool: set<nat>) returns (count: nat, ghost k: nat)
      requires |offenders| > 1
      requires Progress(before, offenders, spammers, locals, accountSlots, globalSlots, level, pending, total)
      requires Even(before, offenders[..|offenders| - 1], level) && Last(offenders) in before
      requires accountSlots < |before[Last(offenders)]| <= level
      requires forall b :: b in spammers ==> b in before && |before[b]| <= |before[Last(offenders)]|
      requires Follows(before, pending, was, nonces, pool, all)
      modifies this
      ensures Progress(before, offenders, spammers, locals, accountSlots, globalSlots, k, pending, count)
      ensures Follows(before, pending, was, nonces, pool, all)
      ensures k > accountSlots && (count > globalSlots ==> Even(before, offenders, k))
    {
      hide Follows, Total, Progress, High, Even;
      count, k := total, level;
      var others := offenders[..|offenders| - 1];
      LastLength(before, offenders, spammers, locals, accountSlots, globalSlots, k, pending, count);
      var threshold := |pending[Last(offenders)]|;
      EvenLengths(before, offenders, others, spammers, locals, accountSlots, globalSlots, k, pending, count);
      while count > globalSlots && |pending[offenders[|offenders| - 2]]| > threshold
        invariant Progress(before, offenders, spammers, locals, accountSlots, globalSlots, k, pending, count)
        invariant Follows(before, pending, was, nonces, pool, all)
        invariant threshold <= k && Even(before, others, k)
        invariant forall a :: a in others ==> a in pending && |pending[a]| == k
        decreases k
      {
        assert others[|offenders| - 2] in others;
        Down(before, offenders, others, spammers, locals, accountSlots, globalSlots, k, pending, count);
        Reduce(others, k, before, was, pool);
        TotalIsNat(pending);
        count, k := count - |others|, k - 1;
        EvenLengths(before, offenders, others, spammers, locals, accountSlots, globalSlots, k, pending, count);
      }
      assert others[|offenders| - 2] in others;
      EvenAll(before, offenders, k);
    }

    /** Cuts all offenders to the guaranteed slots, or until the total fits. */
    method LowerAll(total: nat, offenders: seq<Address>, ghost level: nat,
                    ghost before: Pending, ghost was: Nonces, ghost pool: set<nat>) returns (count: nat, ghost k: nat)
      requires offenders != [] && level > accountSlots
      requires Progress(before, offenders, {}, locals, accountSlots, globalSlots, level, pending, total)
      requires Even(before, offenders, level)
      requires Follows(before, pending, was, nonces, pool, all)
      modifies this
      ensures Progress(before, offenders, {}, locals, accountSlots, globalSlots, k, pending, count)
      ensures Follows(before, pending, was, nonces, pool, all)
      ensures count <= globalSlots || k == accountSlots
    {
      hide Follows, Total, Progress, High, Even;
      count, k := total, level;
      EvenLengths(before, offenders, offenders, {}, locals, accountSlots, globalSlots, k, pending, count);
      while count > globalSlots && |pending[Last(offenders)]| > accountSlots
        invariant Progress(before, offenders, {}, locals, accountSlots, globalSlots, k, pending, count)
        invariant Follows(before, pending, was, nonces, pool, all)
        invariant accountSlots <= k && Even(before, offenders, k)
        invariant forall a :: a in offenders ==> a in pending && |pending[a]| == k
        decreases k
      {
        Down(before, offenders, offenders, {}, locals, accountSlots, globalSlots, k, pending, count);
        Reduce(offenders, k, before, was, pool);
        TotalIsNat(pending);
        count, k := count - |offenders|, k - 1;
        EvenLengths(before, offenders, offenders, {}, locals, accountSlots, globalSlots, k, pending, count);
      }
    }
  }

  // ----- the state of the equalization, on values -----

  function Last(s: seq<Address>): Address
    requires s != []
  {
    s[|s| - 1]
  }

  ghost function High(before: Pending, locals: set<Address>, slots: nat): set<Address> {
    set a | a in before && a !in locals && |before[a]| > slots
  }

  /** The offenders are cut to k; the spammers still queued are no longer than that.
      If anything was dropped, one level more was too much. */
  ghost predicate Progress(before: Pending, offenders: seq<Address>, spammers: set<Address>, locals: set<Address>,
                           slots: nat, limit: nat, k: nat, pending: Pending, count: int) {
    && Distinct(offenders) && Members(offenders) !! spammers
    && Members(offenders) + spammers == High(before, locals, slots)
    && (forall b :: b in spammers ==> |before[b]| <= k)
    && k >= slots
    && pending == Cut(before, Members(offenders), k) && count == Total(pending)
    && (pending == before || Total(Cut(before, Members(offenders), k + 1)) > limit)
  }

  ghost predicate Even(before: Pending, offenders: seq<Address>, k: nat) {
    forall a :: a in offenders ==> a in before && |before[a]| >= k
  }

  lemma EvenStart(before: Pending, k: nat)
    ensures Even(before, [], k)
  {
  }

  lemma EvenAll(before: Pending, offenders: seq<Address>, k: nat)
    requires offenders != [] && Even(before, offenders[..|offenders| - 1], k) && Last(offenders) in before
    ensures |before[Last(offenders)]| >= k ==> Even(before, offenders, k)
  {
    assert offenders == offenders[..|offenders| - 1] + [Last(offenders)];
  }

  lemma Start(before: Pending, locals: set<Address>, slots: nat, limit: nat)
    ensures Total(before) >= 0
    ensures Progress(before, [], High(before, locals, slots), locals, slots, limit, Total(before)
            + slots, before, Total(before))
  {
    SumAtMost(before.Keys, Length(before), Length(before));
    forall a | a in before ensures |before[a]| <= Total(before) {
      LengthAtMostTotal(before, a);
    }
    assert Cut(before, Members([]), Total(before) + slots) == before;
  }

  lemma SpammersPending(before: Pending, offenders: seq<Address>, spammers: set<Address>, locals: set<Address>,
                        slots: nat, limit: nat, k: nat, pending: Pending, count: int)
    requires Progress(before, offenders, spammers, locals, slots, limit, k, pending, count)
    ensures spammers <= pending.Keys && pending.Keys == before.Keys
    ensures forall b :: b in spammers ==> pending[b] == before[b] && slots < |before[b]| <= k
  {
    hide Total;
  }

  lemma First(before: Pending, spammers: set<Address>, b: Address, locals: set<Address>,
              slots: nat, limit: nat, k: nat, pending: Pending, count: int)
    requires Progress(before, [], spammers, locals, slots, limit, k, pending, count)
    requires pending.Keys == before.Keys && IsHighest(pending, spammers, b) && b in before && pending[b] == before[b]
    ensures Progress(before, [b], spammers - {b}, locals, slots, limit, |before[b]|, pending, count)
    ensures Even(before, [b], |before[b]|) && |before[b]| > slots
  {
    hide Total;
    assert Members([]) == {} && Members([b]) == {b};
    CutNothing(before, b, k);
    CutNothing(before, b, |before[b]|);
    assert b in High(before, locals, slots);
    forall c | c in spammers ensures |before[c]| <= |before[b]| {
      assert pending[c] == before[c];
    }
  }

  lemma Next(before: Pending, offenders: seq<Address>, spammers: set<Address>, b: Address, locals: set<Address>,
             slots: nat, limit: nat, k: nat, pending: Pending, count: int)
    requires Progress(before, offenders, spammers, locals, slots, limit, k, pending, count)
    requires IsHighest(pending, spammers, b)
    ensures Progress(before, offenders + [b], spammers - {b}, locals, slots, limit, k, pending, count)
    ensures b in before && slots < |before[b]| <= k
    ensures forall c :: c in spammers ==> c in before && |before[c]| <= |before[b]|
    ensures Last(offenders + [b]) == b && (offenders + [b])[..|offenders|] == offenders
  {
    hide Total, Cut, High, Members, Distinct;
    SpammersPending(before, offenders, spammers, locals, slots, limit, k, pending, count);
    MemberMore(offenders, b, spammers);
    CutMore(before, Members(offenders), b, k);
    CutMore(before, Members(offenders), b, k + 1);
  }

  lemma MemberMore(offenders: seq<Address>, b: Address, spammers: set<Address>)
    requires Distinct(offenders) && Members(offenders) !! spammers && b in spammers
    ensures Distinct(offenders + [b]) && Members(offenders + [b]) == Members(offenders) + {b}
    ensures Members(offenders + [b]) !! spammers - {b}
    ensures Members(offenders + [b]) + (spammers - {b}) == Members(offenders) + spammers
  {
    assert b !in Members(offenders);
  }

  lemma LastLength(before: Pending, offenders: seq<Address>, spammers: set<Address>, locals: set<Address>,
                   slots: nat, limit: nat, k: nat, pending: Pending, count: int)
    requires Progress(before, offenders, spammers, locals, slots, limit, k, pending, count)
    requires offenders != [] && Last(offenders) in before && |before[Last(offenders)]| <= k
    ensures Last(offenders) in pending && pending[Last(offenders)] == before[Last(offenders)]
  {
    hide Total;
    LowestAll(before[Last(offenders)], k);
  }

  lemma EvenLengths(before: Pending, offenders: seq<Address>, long: seq<Address>, spammers: set<Address>,
                    locals: set<Address>, slots: nat, limit: nat, k: nat, pending: Pending, count: int)
    requires Progress(before, offenders, spammers, locals, slots, limit, k, pending, count)
    requires Even(before, long, k) && forall a :: a in long ==> a in offenders
    ensures forall a :: a in long ==> a in pending && |pending[a]| == k
  {
    hide Total;
    forall a | a in long ensures a in pending && |pending[a]| == k {
      LowestSize(before[a], k);
    }
  }

  /** One round brings the level down by one. */
  lemma Down(before: Pending, offenders: seq<Address>, long: seq<Address>, spammers: set<Address>,
             locals: set<Address>, slots: nat, limit: nat, k: nat, pending: Pending, count: int)
    requires Progress(before, offenders, spammers, locals, slots, limit, k, pending, count)
    requires k > slots && count > limit && (forall a :: a in long ==> a in offenders)
    requires forall a :: a in offenders && a !in long ==> a in before && |before[a]| < k
    requires forall b :: b in spammers ==> b in before && |before[b]| < k
    ensures var pending' := Cut(pending, Members(long), k - 1);
            Progress(before, offenders, spammers, locals, slots, limit, k - 1, pending', Total(pending'))
    ensures long <= offenders ==> Distinct(long)
    ensures count == Total(pending)
    ensures forall j :: Even(before, long, k) && 0 <= j <= k ==> Even(before, long, j)
  {
    hide Total, Cut;
    forall a | a in offenders ensures a in before {
      assert a in High(before, locals, slots);
    }
    CutDown(before, Members(offenders), Members(long), k);
  }

  /** When the rounds end, the outcome is a water level. */
  lemma Done(before: Pending, offenders: seq<Address>, spammers: set<Address>, locals: set<Address>,
             slots: nat, limit: nat, k: nat, pending: Pending, count: int)
    requires Progress(before, offenders, spammers, locals, slots, limit, k, pending, count)
    requires count <= limit || k == slots
    ensures IsWaterLevel(before, locals, slots, limit, k) && pending == Level(before, locals, k)
  {
    hide Total, Cut, Level;
    forall a | a in offenders ensures a !in locals {
      assert a in High(before, locals, slots);
    }
    forall a | a in before && a !in locals && a !in offenders ensures |before[a]| <= k {
      assert a in High(before, locals, slots) ==> a in spammers;
    }
    CutIsLevel(before, Members(offenders), locals, k);
    CutIsLevel(before, Members(offenders), locals, k + 1);
  }

  /** Nobody to cut: the guaranteed slots are the level. */
  lemma NoOffenders(before: Pending, spammers: set<Address>, locals: set<Address>,
                    slots: nat, limit: nat, k: nat, pending: Pending, count: int)
    requires Progress(before, [], spammers, locals, slots, limit, k, pending, count)
    requires spammers == {}
    ensures IsWaterLevel(before, locals, slots, limit, slots) && pending == Level(before, locals, slots)
  {
    hide Total;
    assert Members([]) == {};
    assert pending == before;
    CutIsLevel(before, {}, locals, slots);
  }

  lemma CutNext(before: Pending, accounts: seq<Address>, i: nat, k: nat)
    requires i < |accounts| && accounts[i] in before && accounts[i] !in accounts[..i] && k > 0
    requires |before[accounts[i]]| == k
    ensures var part := Cut(before, Members(accounts[..i]), k - 1);
            && accounts[i] in part && part[accounts[i]] == before[accounts[i]]
            && part[accounts[i] := Lowest(before[accounts[i]], k - 1)] == Cut(before, Members(accounts[..i + 1]), k - 1)
  {
    assert accounts[..i + 1] == accounts[..i] + [accounts[i]];
  }
}
