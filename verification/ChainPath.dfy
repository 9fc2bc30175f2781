/**
 * Block headers linked by parent hashes, and the path from the genesis block to
 * a header: what the number-to-hash index of a chain is meant to hold.
 */
module ChainPath {

  type Hash = nat // 0 is the zero hash

  datatype Header = Header(parent: Hash, number: nat, difficulty: nat)

  type Headers = map<Hash, Header>
  type Index = map<nat, Hash>

  /** Every header but the genesis header has its parent, one number below. */
  ghost predicate Rooted(headers: Headers, genesis: Hash) {
    && genesis in headers && headers[genesis].number == 0
    && forall h :: h in headers ==> IsRooted(headers, genesis, h)
  }

  ghost predicate IsRooted(headers: Headers, genesis: Hash, h: Hash)
    requires h in headers
  {
    var header := headers[h];
    && h != 0
    && (header.number == 0 ==> h == genesis)
    && (header.number > 0 ==> header.parent in headers && headers[header.parent].number + 1 == header.number)
  }

  /** The ancestors of a header and the header itself, by number. */
  ghost function Path(headers: Headers, genesis: Hash, h: Hash): Index
    requires Rooted(headers, genesis) && h in headers
    decreases headers[h].number
  {
    assert IsRooted(headers, genesis, h);
    if headers[h].number == 0 then map[0 := h]
    else Path(headers, genesis, headers[h].parent)[headers[h].number := h]
  }

  lemma {:induction false} PathKeys(headers: Headers, genesis: Hash, h: Hash)
    requires Rooted(headers, genesis) && h in headers
    ensures var path := Path(headers, genesis, h);
            && (forall n :: n in path <==> 0 <= n <= headers[h].number)
            && path[headers[h].number] == h
            && forall n :: n in path ==> path[n] in headers && headers[path[n]].number == n
    decreases headers[h].number
  {
    hide Rooted;
    RootedAt(headers, genesis, h);
    if headers[h].number > 0 {
      PathKeys(headers, genesis, headers[h].parent);
    }
  }

  /** The path of a path member is the part of the path up to it. */
  lemma {:induction false} PathPrefix(headers: Headers, genesis: Hash, h: Hash, n: nat)
    requires Rooted(headers, genesis) && h in headers && n <= headers[h].number
    ensures n in Path(headers, genesis, h) && Path(headers, genesis, h)[n] in headers
    ensures Path(headers, genesis, Path(headers, genesis, h)[n]) == Below(Path(headers, genesis, h), n)
    decreases headers[h].number
  {
    hide Rooted;
    PathKeys(headers, genesis, h);
    RootedAt(headers, genesis, h);
    if n < headers[h].number {
      var parent := headers[h].parent;
      PathPrefix(headers, genesis, parent, n);
      PathKeys(headers, genesis, parent);
      assert Path(headers, genesis, h)[n] == Path(headers, genesis, parent)[n];
      assert Below(Path(headers, genesis, h), n) == Below(Path(headers, genesis, parent), n);
    } else {
      assert Below(Path(headers, genesis, h), n) == Path(headers, genesis, h);
    }
  }

  lemma RootedAt(headers: Headers, genesis: Hash, h: Hash)
    requires Rooted(headers, genesis) && h in headers
    ensures IsRooted(headers, genesis, h)
  {
  }

  ghost function Below(index: Index, n: nat): Index {
    map k | k in index && k <= n :: index[k]
  }

  /** Paths that meet at a number agree up to it. */
  lemma PathsAgree(headers: Headers, genesis: Hash, a: Hash, b: Hash, n: nat)
    requires Rooted(headers, genesis) && a in headers && b in headers
    requires n <= headers[a].number && n <= headers[b].number
    requires n in Path(headers, genesis, a) && n in Path(headers, genesis, b)
    requires Path(headers, genesis, a)[n] == Path(headers, genesis, b)[n]
    ensures Below(Path(headers, genesis, a), n) == Below(Path(headers, genesis, b), n)
  {
    PathPrefix(headers, genesis, a, n);
    PathPrefix(headers, genesis, b, n);
  }

  lemma PathStep(headers: Headers, genesis: Hash, h: Hash, n: nat)
    requires Rooted(headers, genesis) && h in headers && 0 < n <= headers[h].number
    ensures var path := Path(headers, genesis, h);
            n in path && n - 1 in path && path[n] in headers && headers[path[n]].parent == path[n - 1]
  {
    hide Rooted;
    PathKeys(headers, genesis, h);
    PathPrefix(headers, genesis, h, n);
    var path := Path(headers, genesis, h);
    var member := path[n];
    RootedAt(headers, genesis, member);
    var up := headers[member].parent;
    PathKeys(headers, genesis, up);
    assert Path(headers, genesis, member)[n - 1] == up;
    assert Below(path, n)[n - 1] == path[n - 1];
  }

  /** More headers do not change a path. */
  lemma {:induction false} PathGrows(headers: Headers, more: Headers, genesis: Hash, h: Hash)
    requires Rooted(headers, genesis) && Rooted(more, genesis) && h in headers
    requires forall k :: k in headers ==> k in more && more[k] == headers[k]
    ensures Path(more, genesis, h) == Path(headers, genesis, h)
    decreases headers[h].number
  {
    assert IsRooted(headers, genesis, h);
    if headers[h].number > 0 {
      PathGrows(headers, more, genesis, headers[h].parent);
    }
  }

  lemma RootedGrows(headers: Headers, genesis: Hash, h: Hash, header: Header)
    requires Rooted(headers, genesis) && h != 0 && (h in headers ==> headers[h] == header)
    requires header.parent in headers && headers[header.parent].number + 1 == header.number
    ensures Rooted(headers[h := header], genesis)
  {
    var more := headers[h := header];
    forall k | k in more ensures IsRooted(more, genesis, k) {
      if k in headers {
        assert IsRooted(headers, genesis, k);
      }
    }
  }

  /** The path of a header whose parent's path is known. */
  lemma PathExtends(headers: Headers, genesis: Hash, h: Hash)
    requires Rooted(headers, genesis) && h in headers && headers[h].number > 0
    ensures headers[h].parent in headers && headers[headers[h].parent].number + 1 == headers[h].number
    ensures Path(headers, genesis, h) == Path(headers, genesis, headers[h].parent)[headers[h].number := h]
  {
    assert IsRooted(headers, genesis, h);
  }
}
