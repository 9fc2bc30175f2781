/**
 * The header chain, core/headerchain.go: headers and total difficulties in a
 * database behind caches, a number-to-hash index, and a head that moves to the
 * heaviest header written.
 */
module HeaderChain {
  import opened Wrappers
  import opened ChainPath

  datatype Status = UnknownAncestor | Canonical | Side

  const HEADER_CACHE_LIMIT := 512
  const TD_CACHE_LIMIT := 1024
  const MAX_UINT64 := 0xFFFF_FFFF_FFFF_FFFF

  type Difficulties = map<Hash, nat>

  /** The number below, as 64-bit arithmetic has it. */
  function Previous(number: nat): nat {
    if number == 0 then MAX_UINT64 else number - 1
  }

  /** Total difficulty is the sum of the difficulties along the path. */
  ghost predicate Summed(headers: Headers, tds: Difficulties) {
    && tds.Keys == headers.Keys
    && forall h :: h in headers && headers[h].number > 0 && headers[h].parent in headers ==>
         tds[h] == tds[headers[h].parent] + headers[h].difficulty
  }

  ghost predicate Heaviest(tds: Difficulties, head: Hash) {
    head in tds && forall h :: h in tds ==> tds[h] <= tds[head]
  }

  ghost predicate Coherent<T>(cache: map<Hash, T>, table: map<Hash, T>) {
    forall h :: h in cache ==> h in table && cache[h] == table[h]
  }

  /** Adds an entry to a cache of limited size; which entry makes room is left open. */
  method Remember<T>(cache: map<Hash, T>, h: Hash, x: T, limit: nat, ghost table: map<Hash,
      T>) returns (cache': map<Hash, T>)
    requires Coherent(cache, table) && h in table && table[h] == x
    ensures Coherent(cache', table)
    ensures |cache| <= limit && limit > 0 ==> |cache'| <= limit
  {
    cache' := cache[h := x];
    if |cache'| > limit {
      assert cache'.Keys == cache.Keys + {h};
      assert cache' != map[];
      var k :| k in cache'.Keys;
      var smaller := cache' - {k};
      assert smaller.Keys == cache'.Keys - {k};
      assert |smaller| == |smaller.Keys| && |cache'| == |cache'.Keys| && |cache| == |cache.Keys|;
      cache' := smaller;
    }
  }

  // ----- the index while it is being rewritten -----

  /** The index has lost its entries from number+1 up to i. */
  ghost predicate Deleting(index: Index, was: Index, number: nat, i: nat) {
    forall n :: (n in index <==> n in was && (n <= number || n >= i)) && (n in index ==> index[n] == was[n])
  }

  /** The index agrees with the new path above k and below number, and with the old one up to k. */
  ghost predicate Rewriting(index: Index, was: Index, path: Index, number: nat, k: int) {
    && (forall n :: n in index ==> n in was || n < number)
    && (forall n :: n in index ==> n <= number)
    && (forall n :: 0 <= n <= k ==> (n in index <==> n in was) && (n in index ==> index[n] == was[n]))
    && (forall n :: k < n < number ==> n in index && n in path && index[n] == path[n])
  }

  lemma DeletedAll(index: Index, was: Index, path: Index, number: nat, i: nat, top: nat)
    requires number > 0 && Deleting(index, was, number, i) && i > number && i !in index
    requires forall n :: n in was <==> 0 <= n <= top
    ensures Rewriting(index, was, path, number, number - 1)
  {
    assert i !in was;
  }

  lemma RewriteOne(index: Index, was: Index, path: Index, number: nat, k: nat)
    requires Rewriting(index, was, path, number, k) && k < number && k in path
    ensures Rewriting(index[k := path[k]], was, path, number, k - 1)
  {
  }

  /** Once an entry of the index is on the new path, everything below it is. */
  lemma RewriteDone(index: Index, was: Index, path: Index, number: nat, k: nat, hash: Hash)
    requires Rewriting(index, was, path, number, k) && k < number
    requires (forall n :: n in path <==> 0 <= n < number) && k in was && k in path && Below(was, k) == Below(path, k)
    ensures index[number := hash] == path[number := hash]
  {
    forall n | 0 <= n < number ensures n in index && n in path && index[n] == path[n] {
      if n <= k {
        assert Below(path, k)[n] == path[n];
        assert n in Below(was, k) && Below(was, k)[n] == was[n];
      }
    }
  }

  /** At number 0 every index entry is right already. */
  lemma NotGenesis(headers: Headers, genesis: Hash, parent: Hash, head: Hash, index: Index, number: nat, k: nat)
    requires Rooted(headers, genesis) && parent in headers && head in headers && k < number
    requires Rewriting(index, Path(headers, genesis, head), Path(headers, genesis, parent), number, k)
    ensures k == 0 ==> k in index && k in Path(headers, genesis, parent) && index[k] == Path(headers, genesis, parent)[k]
  {
    hide Path;
    PathKeys(headers, genesis, parent);
    PathKeys(headers, genesis, head);
    if k == 0 {
      assert IsRooted(headers, genesis, Path(headers, genesis, head)[0]);
      assert IsRooted(headers, genesis, Path(headers, genesis, parent)[0]);
    }
  }

  /** Where the rewriting meets the old index, the rest of the old index is right. */
  lemma Met(headers: Headers, genesis: Hash, parent: Hash, head: Hash, index: Index, number: nat, k: nat, hash: Hash)
    requires Rooted(headers, genesis) && parent in headers && head in headers
    requires k < number && headers[parent].number == number - 1
    requires Rewriting(index, Path(headers, genesis, head), Path(headers, genesis, parent), number, k)
    requires k in index && k in Path(headers, genesis, parent) && index[k] == Path(headers, genesis, parent)[k]
    ensures index[number := hash] == Path(headers, genesis, parent)[number := hash]
  {
    hide Path, Rooted;
    var was, path := Path(headers, genesis, head), Path(headers, genesis, parent);
    PathKeys(headers, genesis, parent);
    PathKeys(headers, genesis, head);
    PathsAgree(headers, genesis, head, parent, k);
    RewriteDone(index, was, path, number, k, hash);
  }

  lemma CachedIsStored(headers: Headers, tds: Difficulties, cache: Difficulties)
    requires Summed(headers, tds) && Coherent(cache, tds)
    ensures forall h :: h in cache ==> h in headers
    ensures tds.Keys == headers.Keys
  {
  }

  lemma SummedGrows(headers: Headers, tds: Difficulties, genesis: Hash, h: Hash, header: Header)
    requires Rooted(headers, genesis) && Summed(headers, tds)
    requires header.parent in headers && headers[header.parent].number + 1 == header.number
    requires h in headers ==> headers[h] == header
    ensures var td := tds[header.parent] + header.difficulty;
            && Summed(headers[h := header], tds[h := td])
            && (h in tds ==> tds[h] == td)
  {
    var td, more := tds[header.parent] + header.difficulty, headers[h := header];
    forall k | k in more && more[k].number > 0 && more[k].parent in more
      ensures tds[h := td][k] == tds[h := td][more[k].parent] + more[k].difficulty
    {
      if k in headers {
        assert IsRooted(headers, genesis, k);
      }
    }
  }

  lemma CoherentGrows<T>(cache: map<Hash, T>, table: map<Hash, T>, h: Hash, x: T)
    requires Coherent(cache, table) && (h in table ==> table[h] == x)
    ensures Coherent(cache, table[h := x])
  {
  }

  lemma Heavier(tds: Difficulties, head: Hash, h: Hash, td: nat)
    requires Heaviest(tds, head) && (h in tds ==> tds[h] == td)
    ensures td >= tds[head] ==> Heaviest(tds[h := td], h)
    ensures td <= tds[head] ==> Heaviest(tds[h := td], head)
  {
  }

  class Chain {
    const hashOf: Header -> Hash
    const genesis: Hash
    // the database
    var headers: Headers
    var tds: Difficulties
    var canonical: Index
    var headHeaderHash: Hash
    // the fields
    var currentHeader: Header
    var currentHeaderHash: Hash
    var headerCache: Headers
    var tdCache: Difficulties

    /** Headers and total difficulties are in order, and the caches tell the truth. */
    ghost predicate Stored()
      reads this
    {
      && Rooted(headers, genesis)
      && (forall h :: h in headers ==> hashOf(headers[h]) == h)
      && Summed(headers, tds)
      && Coherent(headerCache, headers) && Coherent(tdCache, tds)
      && |headerCache| <= HEADER_CACHE_LIMIT && |tdCache| <= TD_CACHE_LIMIT
    }

    /** The index is exactly the path of the head, and no header is heavier than the head. */
    ghost predicate Valid()
      reads this
    {
      && Stored()
      && currentHeaderHash in headers && currentHeader == headers[currentHeaderHash]
      && headHeaderHash == currentHeaderHash
      && canonical == Path(headers, genesis, currentHeaderHash)
      && Heaviest(tds, currentHeaderHash)
    }

    constructor (hashOf: Header -> Hash, header: Header, td: nat)
      requires header.number == 0 && hashOf(header) != 0
      ensures Valid() && this.hashOf == hashOf && genesis == hashOf(header)
      ensures headers == map[hashOf(header) := header] && currentHeader == header
    {
      var h := hashOf(header);
      this.hashOf, genesis := hashOf, h;
      headers, tds, canonical := map[h := header], map[h := td], map[0 := h];
      headHeaderHash, currentHeader, currentHeaderHash := h, header, h;
      headerCache, tdCache := map[], map[];
    }

    /** NewHeaderChain on a database that has a genesis header: resumes from the head block, or
        from genesis if there is none. The chain is in order exactly if the index and the
        header head that were left on disk belong to that block and none is heavier. */
    constructor Load(hashOf: Header -> Hash, headers: Headers, tds: Difficulties, canonical: Index,
                     headHeaderHash: Hash, headBlockHash: Hash)
      requires 0 in canonical && Rooted(headers, canonical[0]) && Summed(headers, tds)
      requires forall h :: h in headers ==> hashOf(headers[h]) == h
      ensures Stored() && this.headers == headers && this.tds == tds && this.canonical == canonical
      ensures currentHeaderHash == if headBlockHash in headers then headBlockHash else canonical[0]
      ensures currentHeader == headers[currentHeaderHash]
      ensures Valid() <==> headHeaderHash == currentHeaderHash && Heaviest(tds, currentHeaderHash)
                           && canonical == Path(headers, canonical[0], currentHeaderHash)
    {
      this.hashOf, genesis := hashOf, canonical[0];
      this.headers, this.tds, this.canonical, this.headHeaderHash := headers, tds, canonical, headHeaderHash;
      currentHeader, currentHeaderHash := headers[canonical[0]], canonical[0];
      if headBlockHash in headers {
        currentHeader, currentHeaderHash := headers[headBlockHash], headBlockHash;
      }
      headerCache, tdCache := map[], map[];
    }

    method GetTd(hash: Hash, number: nat) returns (td: Option<nat>)
      requires Stored()
      modifies this`tdCache
      ensures Stored()
      ensures td == if hash in old(tdCache) || (hash in headers && headers[hash].number == number)
                    then Some(tds[hash]) else None
    {
      hide Rooted;
      if hash in tdCache {
        return Some(tdCache[hash]);
      }
      if !(hash in tds && hash in headers && headers[hash].number == number) {
        return None;
      }
      tdCache := Remember(tdCache, hash, tds[hash], TD_CACHE_LIMIT, tds);
      return Some(tds[hash]);
    }

    method GetHeader(hash: Hash, number: nat) returns (header: Option<Header>)
      requires Stored()
      modifies this`headerCache
      ensures Stored()
      ensures header == if hash in old(headerCache) || (hash in headers && headers[hash].number == number)
                        then Some(headers[hash]) else None
    {
      hide Rooted, Summed;
      if hash in headerCache {
        return Some(headerCache[hash]);
      }
      if !(hash in headers && headers[hash].number == number) {
        return None;
      }
      headerCache := Remember(headerCache, hash, headers[hash], HEADER_CACHE_LIMIT, headers);
      return Some(headers[hash]);
    }

    /** What the caller has verified of a header: its number follows its parent's, and
        its hash stands for no other header. */
    ghost predicate Acceptable(header: Header)
      reads this
    {
      && (header.parent in headers ==> header.number == headers[header.parent].number + 1)
      && (hashOf(header) in headers ==> headers[hashOf(header)] == header)
      && hashOf(header) != 0
    }

    /** WriteHeader. The coin decides between equally heavy heads. */
    method WriteHeader(header: Header, coin: bool) returns (status: Status)
      requires Valid() && Acceptable(header)
      modifies this
      ensures Valid()
      ensures status == UnknownAncestor <==> header.parent !in old(headers)
      ensures headers == if status == UnknownAncestor then old(headers) else old(headers)[hashOf(header) := header]
      ensures status == Canonical <==>
                && header.parent in old(headers)
                && (var td := old(tds)[header.parent] + header.difficulty; var best := old(tds)[old(currentHeaderHash)];
                    td > best || (td == best && coin))
      ensures currentHeader == if status == Canonical then header else old(currentHeader)
    {
      hide Rooted, Summed, Path, Heaviest, Coherent;
      var hash := hashOf(header);
      var number := header.number;
      CachedIsStored(headers, tds, tdCache);
      var ptd := GetTd(header.parent, Previous(number));
      if ptd == None {
        return UnknownAncestor;
      }
      CachedIsStored(headers, tds, tdCache);
      var localTd := GetTd(currentHeaderHash, currentHeader.number);
      var externTd := header.difficulty + ptd.value;
      var reroute := externTd > localTd.value || (externTd == localTd.value && coin);
      Insert(hash, header, externTd, reroute);
      status := if reroute then Canonical else Side;
    }

    method Insert(hash: Hash, header: Header, td: nat, reroute: bool)
      requires Valid() && Acceptable(header) && hash == hashOf(header)
      requires header.parent in headers && header.parent in tds && td == tds[header.parent] + header.difficulty
      requires currentHeaderHash in tds && if reroute then td >= tds[currentHeaderHash] else td <= tds[currentHeaderHash]
      modifies this
      ensures Valid() && headers == old(headers)[hash := header]
      ensures currentHeader == if reroute then header else old(currentHeader)
    {
      hide Rooted, Summed, Path, Heaviest, Coherent;
      StoreHeader(hash, header, td);
      Heavier(old(tds), old(currentHeaderHash), hash, td);
      if reroute {
        Reroute(hash, header);
      }
      headerCache := Remember(headerCache, hash, header, HEADER_CACHE_LIMIT, headers);
    }

    /** Writes the total difficulty and the header; the head's path is not affected. */
    method StoreHeader(hash: Hash, header: Header, td: nat)
      requires Stored() && Acceptable(header) && hash == hashOf(header) && currentHeaderHash in headers
      requires header.parent in headers && header.parent in tds && td == tds[header.parent] + header.difficulty
      modifies this`headers, this`tds, this`tdCache
      ensures Stored() && headers == old(headers)[hash := header] && tds == old(tds)[hash := td]
      ensures old(hash in tds ==> tds[hash] == td)
      ensures Path(headers, genesis, currentHeaderHash) == old(Path(headers, genesis, currentHeaderHash))
    {
      hide Rooted, Summed, Path, Coherent;
      RootedGrows(headers, genesis, hash, header);
      SummedGrows(headers, tds, genesis, hash, header);
      PathGrows(headers, headers[hash := header], genesis, currentHeaderHash);
      CoherentGrows(tdCache, tds, hash, td);
      CoherentGrows(headerCache, headers, hash, header);
      tds := tds[hash := td];
      headers := headers[hash := header];
      tdCache := Remember(tdCache, hash, td, TD_CACHE_LIMIT, tds);
    }

    /** Makes the index the path of the new head. */
    method Reroute(hash: Hash, header: Header)
      requires Stored() && hash in headers && headers[hash] == header && header.number > 0
      requires currentHeaderHash in headers && canonical == Path(headers, genesis, currentHeaderHash)
      modifies this`canonical, this`headHeaderHash, this`currentHeaderHash, this`currentHeader, this`headerCache
      ensures Stored()
      ensures canonical == Path(headers, genesis, hash)
      ensures headHeaderHash == currentHeaderHash == hash && currentHeader == header
    {
      hide Rooted, Summed, Path, Coherent, Rewriting, Deleting;
      PathExtends(headers, genesis, hash);
      DeleteAbove(header.number, Path(headers, genesis, header.parent));
      Overwrite(header, hash);
      canonical := canonical[header.number := hash];
      headHeaderHash := hash;
      currentHeaderHash := hash;
      currentHeader := header;
    }

    /** Deletes the number assignments above a new head. */
    method DeleteAbove(number: nat, ghost path: Index)
      requires Rooted(headers, genesis) && currentHeaderHash in headers && number > 0
      requires canonical == Path(headers, genesis, currentHeaderHash)
      modifies this`canonical
      ensures Rewriting(canonical, old(canonical), path, number, number - 1)
    {
      hide Rooted, Path, Rewriting;
      PathKeys(headers, genesis, currentHeaderHash);
      ghost var was := canonical;
      var i: nat := number + 1;
      while i in canonical
        invariant i > number && Deleting(canonical, was, number, i)
        decreases headers[currentHeaderHash].number + number + 1 - i
      {
        canonical := canonical - {i};
        i := i + 1;
      }
      DeletedAll(canonical, was, path, number, i, headers[currentHeaderHash].number);
    }

    /** Overwrites stale number assignments below a new head, down to the first right one. */
    method Overwrite(header: Header, ghost hash: Hash)
      requires Stored() && header.number > 0 && header.parent in headers && headers[header.parent].number
              + 1 == header.number
      requires currentHeaderHash in headers
      requires Rewriting(canonical, Path(headers, genesis, currentHeaderHash), Path(headers, genesis, header.parent),
                         header.number, header.number - 1)
      modifies this`canonical, this`headerCache
      ensures Stored()
      ensures canonical[header.number := hash] == Path(headers, genesis, header.parent)[header.number := hash]
    {
      hide Rooted, Summed, Path, Coherent, Rewriting;
      ghost var was, path := Path(headers, genesis, currentHeaderHash), Path(headers, genesis, header.parent);
      PathKeys(headers, genesis, header.parent);
      PathKeys(headers, genesis, currentHeaderHash);
      var headHash := header.parent;
      var headNumber: nat := header.number - 1;
      var headHeader := GetHeader(headHash, headNumber);
      while !(headNumber in canonical && canonical[headNumber] == headHash)
        invariant Stored() && headNumber < header.number
        invariant Rewriting(canonical, was, path, header.number, headNumber)
        invariant headNumber in path && headHash == path[headNumber] && headHeader == Some(headers[headHash])
        decreases headNumber
      {
        NotGenesis(headers, genesis, header.parent, currentHeaderHash, canonical, header.number, headNumber);
        PathStep(headers, genesis, header.parent, headNumber);
        RewriteOne(canonical, was, path, header.number, headNumber);
        canonical := canonical[headNumber := headHash];
        headHash := headHeader.value.parent;
        headNumber := headHeader.value.number - 1;
        headHeader := GetHeader(headHash, headNumber);
      }
      Met(headers, genesis, header.parent, currentHeaderHash, canonical, header.number, headNumber, hash);
    }

    /** Writes any headers in any order, with any coins; headers without a known parent are refused. */
    method Run(steps: seq<(Header, bool)>, ghost world: set<Header>)
      requires Valid() && Legal(hashOf, world) && headers.Values <= world
      requires forall i :: 0 <= i < |steps| ==> steps[i].0 in world
      modifies this
      ensures Valid() && headers.Values <= world
      ensures canonical == Path(headers, genesis, currentHeaderHash) && Heaviest(tds, currentHeaderHash)
      ensures headers == Taken(hashOf, old(headers), steps)
      ensures forall i :: 0 <= i < |steps| && steps[i].0.parent in old(headers) ==> hashOf(steps[i].0) in headers
    {
      hide Rooted, Summed, Path, Heaviest, Coherent, Legal, Taken;
      ghost var before := headers;
      TakenStep(hashOf, before, [], (currentHeader, false));
      assert steps[..0] == [];
      for i := 0 to |steps|
        invariant Valid() && headers.Values <= world && headers == Taken(hashOf, before, steps[..i])
        invariant before.Keys <= headers.Keys
        invariant forall j :: 0 <= j < i && steps[j].0.parent in before ==> hashOf(steps[j].0) in headers
      {
        assert steps[..i + 1] == steps[..i] + [steps[i]];
        TakenStep(hashOf, before, steps[..i], steps[i]);
        var header, coin := steps[i].0, steps[i].1;
        LegalIsAcceptable(hashOf, world, headers, header);
        ValuesGrow(headers, hashOf(header), header, world);
        var status := WriteHeader(header, coin);
      }
      assert steps[..|steps|] == steps;
    }

    /** What the index tells a client: entry n is an ancestor of the head for every n up to
        the head's number, linked to the entry below, and there is nothing above. */
    lemma IndexIsAncestry(n: nat)
      requires Valid()
      ensures n in canonical <==> n <= currentHeader.number
      ensures n in canonical ==> canonical[n] in headers && headers[canonical[n]].number == n
      ensures n in canonical && n > 0 ==> n - 1 in canonical && headers[canonical[n]].parent == canonical[n - 1]
      ensures currentHeader.number in canonical && canonical[currentHeader.number] == currentHeaderHash
    {
      PathKeys(headers, genesis, currentHeaderHash);
      if 0 < n <= currentHeader.number {
        PathStep(headers, genesis, currentHeaderHash, n);
      }
    }
  }

  /** Headers as a consensus engine lets them through: hashes tell them apart and
      numbers follow the parent's. */
  /** The headers that are stored after the given ones have been offered: those whose parent is
      stored by then, whatever the coins. */
  ghost function Taken(hashOf: Header -> Hash, headers: Headers, steps: seq<(Header, bool)>): Headers {
    if steps == [] then headers
    else
      var before, header := Taken(hashOf, headers, steps[..|steps| - 1]), steps[|steps| - 1].0;
      if header.parent in before then before[hashOf(header) := header] else before
  }

  /** One more header is taken exactly if its parent is stored. */
  lemma TakenStep(hashOf: Header -> Hash, headers: Headers, steps: seq<(Header, bool)>, step: (Header, bool))
    ensures Taken(hashOf, headers, []) == headers
    ensures var before := Taken(hashOf, headers, steps);
            Taken(hashOf, headers, steps + [step])
            == if step.0.parent in before then before[hashOf(step.0) := step.0] else before
  {
    assert (steps + [step])[..|steps|] == steps;
  }

  ghost predicate Legal(hashOf: Header -> Hash, world: set<Header>) {
    && (forall x :: x in world ==> hashOf(x) != 0)
    && (forall x, y :: x in world && y in world && hashOf(x) == hashOf(y) ==> x == y)
    && (forall x, y :: x in world && y in world && x.parent == hashOf(y) ==> x.number == y.number + 1)
  }

  lemma ValuesGrow(headers: Headers, h: Hash, header: Header, world: set<Header>)
    requires headers.Values <= world && header in world
    ensures headers[h := header].Values <= world
  {
    assert forall k :: k in headers[h := header] ==> k == h || (k in headers && headers[k] in headers.Values);
  }

  lemma LegalIsAcceptable(hashOf: Header -> Hash, world: set<Header>, headers: Headers, header: Header)
    requires Legal(hashOf, world) && headers.Values <= world && header in world
    requires forall h :: h in headers ==> hashOf(headers[h]) == h
    ensures header.parent in headers ==> header.number == headers[header.parent].number + 1
    ensures hashOf(header) in headers ==> headers[hashOf(header)] == header
    ensures hashOf(header) != 0
  {
    assert forall h :: h in headers ==> headers[h] in headers.Values;
  }
}
