/**
 * The difference iterator: the nodes of one trie that another does not have,
 * without descending into subtries with equal hashes (trie/iterator.go).
 */
module TrieDifference {
  import opened Wrappers
  import opened ByteOrder
  import opened TriePreorder
  import opened TrieKeys
  import opened TrieIterator

  /** What two nodes are compared by. */
  datatype Mark = Mark(path: Path, hash: Hash, blob: Option<Blob>)

  function MarkOf(e: Elem): Mark {
    Mark(e.path, HashOf(e.node), if e.node.Value? then Some(e.node.blob) else None)
  }

  /** What an iterator without a node is compared by. */
  function NoMark(): Mark {
    Mark([], 0, None)
  }

  lemma EmptyIsLeast(p: Path)
    ensures p == [] || Lt([], p)
  {
  }

  /** In a sorted sequence only the first path can be empty. */
  lemma OnlyFirstEmpty(s: seq<Elem>)
    requires Sorted(s)
    ensures forall k :: 1 <= k < |s| ==> s[k].path != []
  {
    forall k | 1 <= k < |s| ensures s[k].path != [] {
      assert Lt(s[0].path, s[k].path);
    }
  }

  ghost predicate HasMark(s: seq<Elem>, m: Mark) {
    exists k :: 0 <= k < |s| && MarkOf(s[k]) == m
  }

  /** The reference: what b has and a does not have, in order. */
  ghost function Difference(b: seq<Elem>, a: seq<Elem>): seq<Elem> {
    if b == [] then []
    else (if HasMark(a, MarkOf(b[0])) then [] else [b[0]]) + Difference(b[1..], a)
  }

  lemma {:induction false} InDifference(b: seq<Elem>, a: seq<Elem>, e: Elem)
    ensures e in Difference(b, a) <==> e in b && !HasMark(a, MarkOf(e))
  {
    if b != [] {
      InDifference(b[1..], a, e);
    }
  }

  /** The trie has the node at the same path: the same value, or a node of the same hash. */
  predicate Has(n: Node, e: Elem) {
    var at := Walk(n, e.path);
    && at.Some? && (e.path == [] || !at.value.Nil?)
    && if e.node.Value? then at.value == e.node else !at.value.Value? && HashOf(at.value) == HashOf(e.node)
  }

  /** Of two inner nodes at a path the hash decides, of two values the value. */
  lemma HasMeans(n: Node, e: Elem)
    requires Walk(n, e.path).Some?
    ensures var at := Walk(n, e.path).value;
            && (e.node.Short? && at.Short? ==> (Has(n, e) <==> at.shash == e.node.shash))
            && (e.node.Full? && at.Full? ==> (Has(n, e) <==> at.fhash == e.node.fhash))
            && (e.node.Short? && at.Full? ==> (Has(n, e) <==> at.fhash == e.node.shash))
            && (e.node.Full? && at.Short? ==> (Has(n, e) <==> at.shash == e.node.fhash))
            && (e.node.Value? ==> (Has(n, e) <==> at == e.node))
            && (at.Nil? && e.path != [] ==> !Has(n, e))
  {
  }

  lemma HasIsMark(n: Node, e: Elem)
    requires WellFormed(n)
    ensures Has(n, e) <==> HasMark(Preorder(n, []), MarkOf(e))
  {
    hide WellFormed, Preorder, Walk;
    var s := Preorder(n, []);
    if Has(n, e) {
      var at := Elem(e.path, Walk(n, e.path).value);
      RootWalk(n, at);
      var k :| 0 <= k < |s| && s[k] == at;
    }
    if HasMark(s, MarkOf(e)) {
      var k :| 0 <= k < |s| && MarkOf(s[k]) == MarkOf(e);
      RootWalk(n, s[k]);
    }
  }

  lemma {:induction false} DifferenceSorted(b: seq<Elem>, a: seq<Elem>)
    requires Sorted(b)
    ensures Sorted(Difference(b, a))
  {
    hide Lt;
    if b != [] {
      DifferenceSorted(b[1..], a);
      var rest := Difference(b[1..], a);
      forall j | 0 <= j < |rest| ensures Lt(b[0].path, rest[j].path) {
        InDifference(b[1..], a, rest[j]);
        assert rest[j] in b[1..];
      }
      SortedConcat([b[0]], rest);
    }
  }

  lemma {:induction false} DifferenceSkips(b: seq<Elem>, a: seq<Elem>, n: nat)
    requires n <= |b| && forall k :: 0 <= k < n ==> HasMark(a, MarkOf(b[k]))
    ensures Difference(b, a) == Difference(b[n..], a)
  {
    if n > 0 {
      DifferenceSkips(b[1..], a, n - 1);
      assert b[1..][n-1..] == b[n..];
    }
  }

  /** compareNodes. */
  method CompareNodes(a: Elem, b: Elem) returns (c: int)
    requires PathFits(a.path, a.node) && PathFits(b.path, b.node)
    ensures c == 0 <==> MarkOf(a) == MarkOf(b)
    ensures c != 0 ==> c == -1 || c == 1
    ensures Lt(a.path, b.path) ==> c == -1
    ensures a.path == b.path && !a.node.Value? && HashOf(a.node) < HashOf(b.node) ==> c == -1
    ensures c == -1 ==> a.path == b.path || Lt(a.path, b.path)
    ensures c == 1 ==> a.path == b.path || Lt(b.path, a.path)
  {
    LtTotal(a.path, b.path);
    if Lt(a.path, b.path) {
      return -1;
    } else if Lt(b.path, a.path) {
      return 1;
    }
    if HasTerm(a.path) && !HasTerm(b.path) {
      return -1;
    } else if HasTerm(b.path) && !HasTerm(a.path) {
      return 1;
    }
    if HashOf(a.node) != HashOf(b.node) {
      return if HashOf(a.node) < HashOf(b.node) then -1 else 1;
    }
    if HasTerm(a.path) && HasTerm(b.path) {
      LtTotal(a.node.blob, b.node.blob);
      return if Lt(a.node.blob, b.node.blob) then -1 else if Lt(b.node.blob, a.node.blob) then 1 else 0;
    }
    return 0;
  }

  // ----- two sorted sequences walked side by side -----

  /** Nothing dropped from a can still come up in b. */
  ghost predicate Separated(a: seq<Elem>, i: nat, b: seq<Elem>, j: nat) {
    forall k, l :: 0 <= k < i && k < |a| && j <= l < |b| ==> MarkOf(a[k]) != MarkOf(b[l])
  }

  ghost predicate AllIn(b: seq<Elem>, from: nat, to: nat, a: seq<Elem>) {
    forall k :: from <= k < to && k < |b| ==> HasMark(a, MarkOf(b[k]))
  }

  /** a's node is smaller than b's: it cannot come up any more. */
  lemma DropSmaller(a: seq<Elem>, i: nat, b: seq<Elem>, j: nat)
    requires Sorted(b) && i < |a| && j < |b| && Separated(a, i, b, j)
    requires MarkOf(a[i]) != MarkOf(b[j]) && (a[i].path == b[j].path || Lt(a[i].path, b[j].path))
    ensures Separated(a, i + 1, b, j)
  {
    forall l | j <= l < |b| ensures MarkOf(a[i]) != MarkOf(b[l]) {
      if l > j {
        if a[i].path != b[j].path {
          LtTransitive(a[i].path, b[j].path, b[l].path);
        }
        LtTotal(a[i].path, b[l].path);
      }
    }
  }

  /** b's node is smaller than a's, or a is used up: a does not have it. */
  lemma NotThere(a: seq<Elem>, i: nat, b: seq<Elem>, j: nat)
    requires Sorted(a) && i <= |a| && j < |b| && Separated(a, i, b, j)
    requires i < |a| ==> MarkOf(a[i]) != MarkOf(b[j]) && (a[i].path == b[j].path || Lt(b[j].path, a[i].path))
    ensures !HasMark(a, MarkOf(b[j]))
  {
    forall k | 0 <= k < |a| ensures MarkOf(a[k]) != MarkOf(b[j]) {
      if k > i {
        if a[i].path != b[j].path {
          LtTransitive(b[j].path, a[i].path, a[k].path);
        }
        LtTotal(b[j].path, a[k].path);
      }
    }
  }

  ghost function Marks(s: seq<Elem>): seq<Mark> {
    seq(|s|, k requires 0 <= k < |s| => MarkOf(s[k]))
  }

  lemma Later(a: seq<Elem>, i: nat, b: seq<Elem>, j: nat, j': nat)
    requires Separated(a, i, b, j) && j <= j'
    ensures Separated(a, i, b, j')
  {
  }

  /** Equal stretches can be skipped on both sides. */
  lemma SkipEqual(a: seq<Elem>, i: nat, b: seq<Elem>, j: nat, n: nat)
    requires Sorted(b) && i + n <= |a| && j + n <= |b| && Separated(a, i, b, j)
    requires Marks(a[i..i+n]) == Marks(b[j..j+n])
    ensures Separated(a, i + n, b, j + n) && AllIn(b, j, j + n, a)
  {
    forall k, l | 0 <= k < i + n && k < |a| && j + n <= l < |b| ensures MarkOf(a[k]) != MarkOf(b[l]) {
      if k >= i {
        assert MarkOf(a[k]) == Marks(a[i..i+n])[k-i] && MarkOf(b[j + (k - i)]) == Marks(b[j..j+n])[k-i];
        LtTotal(b[j + (k - i)].path, b[l].path);
      }
    }
    forall k | j <= k < j + n ensures HasMark(a, MarkOf(b[k])) {
      assert MarkOf(a[i + (k - j)]) == Marks(a[i..i+n])[k-j] && MarkOf(b[k]) == Marks(b[j..j+n])[k-j];
    }
  }

  lemma Earlier(a: seq<Elem>, i: nat, n: nat, b: seq<Elem>, j: nat)
    requires Separated(a, i + n, b, j)
    ensures Separated(a, i, b, j)
  {
  }

  lemma Extend(b: seq<Elem>, from: nat, mid: nat, to: nat, a: seq<Elem>)
    requires AllIn(b, from, mid, a) && AllIn(b, mid, to, a)
    ensures AllIn(b, from, to, a)
  {
  }

  /** Hashes do not collide: equal hashes mean equal subtries. */
  ghost predicate CollisionFree(a: seq<Elem>, b: seq<Elem>) {
    forall k, l :: 0 <= k < |a| && 0 <= l < |b| && HashOf(a[k].node) == HashOf(b[l].node) != 0 ==> a[k].node == b[l].node
  }

  class DifferenceIterator {
    const a: NodeIterator
    const b: NodeIterator
    var eof: bool

    /** Both tries in visiting order; a stands on as[i] unless it is used up, and
        b goes on with bs[j]. */
    ghost const as': seq<Elem>
    ghost const bs: seq<Elem>
    ghost var i: nat
    ghost var j: nat

    ghost predicate Tries()
    {
      && Sorted(as') && Sorted(bs) && LeafPaths(as') && LeafPaths(bs) && CollisionFree(as', bs)
      && a != b
    }

    /** An iterator stands on the k-th node of its trie. */
    static ghost predicate On(it: NodeIterator, s: seq<Elem>, k: int)
      reads it
    {
      && it.Valid() && 0 <= k < |s| && it.At(s[k]) && WellFormed(s[k].node)
      && it.Rest(true) == s[k+1..] && it.Rest(true) == Below(s[k].node, s[k].path, 0) + it.Rest(false)
    }

    /** An iterator goes on with the k-th node of its trie. */
    static ghost predicate Ahead(it: NodeIterator, s: seq<Elem>, k: nat)
      reads it
    {
      it.Valid() && k <= |s| && it.Rest(true) == s[k..]
    }

    static lemma OnIsAhead(it: NodeIterator, s: seq<Elem>, k: nat)
      requires On(it, s, k)
      ensures Ahead(it, s, k + 1) && k < |s| && WellFormed(s[k].node)
      ensures s[k+1..] == Below(s[k].node, s[k].path, 0) + it.Rest(false)
    {
    }

    ghost predicate Valid()
      reads this, a, b
    {
      && Tries() && Ahead(b, bs, j)
      && (eof || Spent() || On(a, as', i)) && ((eof || Spent()) ==> i == |as'|)
      && Separated(as', i, bs, j)
    }

    /** The first iterator had nothing left from the beginning. */
    ghost predicate Spent()
      reads this`i, a
    {
      && as' == [] && a.Valid() && a.done && i == 0
      && (bs != [] ==> MarkOf(bs[0]) != NoMark() && forall k :: 1 <= k < |bs| ==> bs[k].path != [])
    }

    /** NewDifferenceIterator, on iterators that may have been moved to a start. Only a root is
        at the empty path, and a root has a hash. */
    constructor (a: NodeIterator, b: NodeIterator)
      requires a != b && a.Valid() && b.Valid()
      requires Sorted(a.Rest(true)) && LeafPaths(a.Rest(true)) && Sorted(b.Rest(true)) && LeafPaths(b.Rest(true))
      requires CollisionFree(a.Rest(true), b.Rest(true))
      requires a.Rest(true) == [] && b.Rest(true) != [] ==> MarkOf(b.Rest(true)[0]) != NoMark()
      modifies a
      ensures Valid() && this.a == a && this.b == b && !eof && j == 0
      ensures as' == old(a.Rest(true)) && bs == old(b.Rest(true))
    {
      hide Sorted, LeafPaths, CollisionFree, MarkOf, WellFormed, Below;
      this.a, this.b, eof := a, b, false;
      as', bs := a.Rest(true), b.Rest(true);
      i, j := 0, 0;
      new;
      OnlyFirstEmpty(bs);
      var _ := a.Next(true);
      assert bs[0..] == bs;
    }

    /** Next on one of the two, onto the k-th node of its trie. */
    static method Move(it: NodeIterator, ghost s: seq<Elem>, ghost k: nat) returns (more: bool)
      requires Ahead(it, s, k)
      modifies it
      ensures k <= |s| && (more <==> k < |s|)
      ensures if more then On(it, s, k) else Ahead(it, s, |s|)
    {
      hide WellFormed, Below, Preorder, StackOk, Pending;
      more := it.Next(true);
    }

    /** The same past everything below the node it stands on. */
    static method MovePast(it: NodeIterator, ghost s: seq<Elem>, ghost k: nat) returns (more: bool)
      requires it.Valid() && k <= |s| && it.Rest(false) == s[k..]
      modifies it
      ensures k <= |s| && (more <==> k < |s|)
      ensures if more then On(it, s, k) else Ahead(it, s, |s|)
    {
      hide WellFormed, Below, Preorder, StackOk, Pending;
      more := it.Next(false);
    }

    /** compareNodes on the nodes both stand on. */
    method Compare() returns (c: int)
      requires Tries() && (On(a, as', i) || Spent()) && On(b, bs, j - 1)
      ensures Spent() ==> c == -1
      ensures On(a, as', i) ==> (c == 0 <==> MarkOf(as'[i]) == MarkOf(bs[j-1]))
      ensures On(a, as', i) && c == -1 ==> as'[i].path == bs[j-1].path || Lt(as'[i].path, bs[j-1].path)
      ensures On(a, as', i) && c == 1 ==> as'[i].path == bs[j-1].path || Lt(bs[j-1].path, as'[i].path)
      ensures c == 0 || c == -1 || c == 1
    {
      hide WellFormed, Below, Pending, Sorted, CollisionFree, Lt;
      if Spent() {
        LtTotal([], bs[j-1].path);
        EmptyIsLeast(bs[j-1].path);
      }
      var current := if a.stack == [] then Nil else a.stack[|a.stack|-1].node;
      c := CompareNodes(Elem(a.path, current), Elem(b.path, b.stack[|b.stack|-1].node));
    }

    /** Next: moves b to its next node that a does not have. */
    method Next() returns (more: bool)
      requires Valid()
      modifies this`eof, this`i, this`j, a, b
      ensures Valid()
      ensures more ==> Emitted(old(j))
      ensures !more ==> AllIn(bs, old(j), |bs|, as') && j >= old(j)
    {
      hide On, Ahead, Sorted, CollisionFree, Separated, HasMark, LeafPaths, MarkOf, Lt, Spent;
      more := Move(b, bs, j);
      if !more {
        return;
      }
      j := j + 1;
      OnIsAhead(b, bs, j - 1);
      if eof {
        Emit(old(j));
        return true;
      }
      more := Search(old(j));
    }

    /** Walks both until b stands on a node that a does not have. */
    method Search(ghost from: nat) returns (more: bool)
      requires Tries() && (On(a, as', i) || Spent()) && On(b, bs, j - 1) && !eof && from < j
      requires Separated(as', i, bs, j - 1) && AllIn(bs, from, j - 1, as')
      modifies this`eof, this`i, this`j, a, b
      ensures Valid()
      ensures more ==> Emitted(from)
      ensures !more ==> AllIn(bs, from, |bs|, as') && j >= from
    {
      hide On, Ahead, Sorted, CollisionFree, Separated, HasMark, LeafPaths, MarkOf, Lt, Spent, AllIn, Emitted;
      while true
        invariant Tries() && (On(a, as', i) || Spent()) && On(b, bs, j - 1) && !eof && from < j
        invariant Separated(as', i, bs, j - 1) && AllIn(bs, from, j - 1, as')
        decreases |as'| - i + |bs| - j
      {
        OnIsAhead(b, bs, j - 1);
        InRange();
        var c := Compare();
        if c == -1 {
          ghost var k := if Spent() then i else i + 1;
          LeaveSmaller();
          more := Move(a, as', k);
          i := k;
          if !more {
            eof := true;
            Emit(from);
            return true;
          }
          StillMore(k);
        } else if c == 1 {
          Emit(from);
          return true;
        } else {
          more := Skip(from);
          if !more || eof {
            return more;
          }
          InRange();
        }
      }
    }

    lemma InRange()
      requires (On(a, as', i) || Spent()) && On(b, bs, j - 1)
      ensures i <= |as'| && 0 < j <= |bs| && (On(a, as', i) ==> i < |as'|)
    {
    }

    /** An iterator that had nothing left has nothing more. */
    lemma StillMore(k: nat)
      requires On(a, as', k)
      ensures k < |as'|
    {
    }

    /** a's node is smaller than b's, or a has none: it goes on. */
    lemma LeaveSmaller()
      requires Tries() && On(b, bs, j - 1) && Separated(as', i, bs, j - 1)
      requires Spent() || (On(a, as', i) && MarkOf(as'[i]) != MarkOf(bs[j-1])
                           && (as'[i].path == bs[j-1].path || Lt(as'[i].path, bs[j-1].path)))
      ensures if Spent() then Ahead(a, as', i) && i == |as'|
              else On(a, as', i) && i < |as'| && Ahead(a, as', i + 1) && Separated(as', i + 1, bs, j - 1)
    {
      hide WellFormed, Below, Sorted, CollisionFree, Separated, HasMark, LeafPaths, MarkOf, Lt, StackOk, Pending, Preorder;
      if !Spent() {
        OnIsAhead(a, as', i);
        DropSmaller(as', i, bs, j - 1);
      }
    }

    /** b's node is one that a does not have. */
    lemma Emit(from: nat)
      requires Tries() && 0 < j && On(b, bs, j - 1) && Separated(as', i, bs, j - 1)
      requires if eof then i == |as'|
               else On(a, as', i) && MarkOf(as'[i]) != MarkOf(bs[j-1])
                    && (as'[i].path == bs[j-1].path || Lt(bs[j-1].path, as'[i].path))
      requires from < j && AllIn(bs, from, j - 1, as')
      ensures Valid() && Emitted(from)
    {
      hide WellFormed, Below, NodeIterator.Valid, NodeIterator.Rest, NodeIterator.At, Sorted, CollisionFree, Separated;
      hide HasMark, LeafPaths, AllIn, MarkOf, Lt;
      NotThere(as', i, bs, j - 1);
      Later(as', i, bs, j - 1, j);
    }

    /** b stands on a node that a does not have, and everything passed since the
        given position a does have. */
    ghost predicate Emitted(from: nat)
      reads this, b
    {
      from < j <= |bs| && On(b, bs, j - 1) && AllIn(bs, from, j - 1, as') && !HasMark(as', MarkOf(bs[j-1]))
    }

    /** a and b stand on equal nodes: both move on, past the whole subtrie if the
        nodes have hashes. */
    method Skip(ghost from: nat) returns (more: bool)
      requires Tries() && On(a, as', i) && On(b, bs, j - 1) && !eof && from < j
      requires Separated(as', i, bs, j - 1) && AllIn(bs, from, j - 1, as')
      requires MarkOf(as'[i]) == MarkOf(bs[j-1])
      modifies this`eof, this`i, this`j, a, b
      ensures more && !eof ==> On(a, as', i) && On(b, bs, j - 1) && Separated(as', i, bs, j - 1) && AllIn(bs, from, j - 1, as')
      ensures more && !eof ==> old(i) < i && old(j) < j
      ensures more && eof ==> Valid() && Emitted(from)
      ensures !more ==> Valid() && AllIn(bs, from, |bs|, as') && j >= from
    {
      hide On, Ahead, WellFormed, Below, Sorted, CollisionFree, Separated, HasMark, LeafPaths, AllIn, MarkOf, Lt;
      var descend := ZeroHash();
      ghost var n := Stretch(descend, from);
      more := Leave(b, descend, bs, j - 1, n);
      j := j - 1 + n;
      if !more {
        Earlier(as', i, n, bs, j);
        return;
      }
      j := j + 1;
      var moreA := Leave(a, descend, as', i, n);
      i := i + n;
      if !moreA {
        eof := true;
        Emit(from);
      }
    }

    /** How many nodes are skipped on both sides. */
    lemma Stretch(descend: bool, from: nat) returns (n: nat)
      requires Tries() && On(a, as', i) && On(b, bs, j - 1) && from < j
      requires Separated(as', i, bs, j - 1) && AllIn(bs, from, j - 1, as')
      requires MarkOf(as'[i]) == MarkOf(bs[j-1]) && (descend <==> HashOf(as'[i].node) == 0)
      ensures n >= 1 && i + n <= |as'| && j - 1 + n <= |bs|
      ensures Separated(as', i + n, bs, j - 1 + n) && AllIn(bs, from, j - 1 + n, as')
      ensures if descend then n == 1 else a.Rest(false) == as'[i+n..] && b.Rest(false) == bs[j-1+n..]
    {
      hide WellFormed, Below, NodeIterator.Rest, NodeIterator.Valid, NodeIterator.At, Sorted, CollisionFree, Separated;
      hide HasMark, LeafPaths, AllIn, MarkOf, Lt;
      n := if descend then 1 else 1 + |Below(as'[i].node, as'[i].path, 0)|;
      SameStretch(as', i, bs, j - 1, descend, a.Rest(false), b.Rest(false));
      SkipEqual(as', i, bs, j - 1, n);
      Extend(bs, from, j - 1, j - 1 + n, as');
    }

    static method Leave(it: NodeIterator, descend: bool, ghost s: seq<Elem>, ghost k: nat, ghost n: nat) returns (more: bool)
      requires On(it, s, k) && k + n <= |s| && (if descend then n == 1 else it.Rest(false) == s[k+n..])
      modifies it
      ensures more <==> k + n < |s|
      ensures if more then On(it, s, k + n) else Ahead(it, s, |s|)
    {
      if descend {
        more := Move(it, s, k + n);
      } else {
        more := MovePast(it, s, k + n);
      }
    }

    /** Repeated Next. */
    method Drain() returns (emitted: seq<Elem>)
      requires Valid()
      modifies this`eof, this`i, this`j, a, b
      ensures Valid() && old(j) <= |bs| && emitted == Difference(bs[old(j)..], as')
    {
      hide DifferenceIterator.Valid, Emitted, HasMark, MarkOf, Difference, AllIn, On;
      emitted := [];
      var more := true;
      InBounds();
      while more
        invariant Valid() && old(j) <= j <= |bs|
        invariant if more then emitted + Difference(bs[j..], as') == Difference(bs[old(j)..], as')
                  else emitted == Difference(bs[old(j)..], as')
        decreases more, |bs| - j
      {
        ghost var from := j;
        more := Next();
        if more {
          EmittedIs(from);
          EmitOne(bs, as', from, j);
          var e := Standing();
          emitted := emitted + [e];
        } else {
          EmitNone(bs, as', from);
        }
        InBounds();
      }
    }

    lemma InBounds()
      requires Valid()
      ensures j <= |bs|
    {
    }

    lemma EmittedIs(from: nat)
      requires Emitted(from)
      ensures from < j <= |bs| && On(b, bs, j - 1) && AllIn(bs, from, j - 1, as') && !HasMark(as', MarkOf(bs[j-1]))
    {
    }

    /** The node b stands on. */
    method Standing() returns (e: Elem)
      requires 0 < j && On(b, bs, j - 1)
      ensures j <= |bs| && e == bs[j-1]
    {
      e := Elem(b.path, b.stack[|b.stack|-1].node);
    }

    /** it.a.Hash() == common.Hash{}. */
    method ZeroHash() returns (zero: bool)
      requires On(a, as', i)
      ensures zero <==> HashOf(as'[i].node) == 0
    {
      zero := HashOf(a.stack[|a.stack|-1].node) == 0;
    }
  }

  /** The nodes skipped on both sides are the same. */
  lemma SameStretch(a: seq<Elem>, i: nat, b: seq<Elem>, j: nat, descend: bool, restA: seq<Elem>, restB: seq<Elem>)
    requires i < |a| && j < |b| && MarkOf(a[i]) == MarkOf(b[j]) && CollisionFree(a, b)
    requires descend <==> HashOf(a[i].node) == 0
    requires WellFormed(a[i].node) && WellFormed(b[j].node)
    requires a[i+1..] == Below(a[i].node, a[i].path, 0) + restA
    requires b[j+1..] == Below(b[j].node, b[j].path, 0) + restB
    ensures var n := if descend then 1 else 1 + |Below(a[i].node, a[i].path, 0)|;
            && i + n <= |a| && j + n <= |b| && Marks(a[i..i+n]) == Marks(b[j..j+n])
            && (!descend ==> a[i+n..] == restA && b[j+n..] == restB)
  {
    hide WellFormed, Below;
    if descend {
      assert a[i..i+1] == [a[i]] && b[j..j+1] == [b[j]];
    } else {
      assert a[i].node == b[j].node;
      var below := Below(a[i].node, a[i].path, 0);
      var n := 1 + |below|;
      assert a[i..i+n] == [a[i]] + a[i+1..][..|below|] == [a[i]] + below;
      assert b[j..j+n] == [b[j]] + b[j+1..][..|below|] == [b[j]] + below;
      assert a[i+n..] == a[i+1..][|below|..] && b[j+n..] == b[j+1..][|below|..];
    }
  }

  /** The nodes of b that a does not have, in order. */
  method DifferenceOf(a: Node, b: Node) returns (emitted: seq<Elem>)
    requires WellFormed(a) && WellFormed(b) && PathFits([], a) && PathFits([], b)
    requires CollisionFree(Preorder(a, []), Preorder(b, []))
    ensures emitted == Difference(Preorder(b, []), Preorder(a, []))
    ensures Sorted(emitted) && forall e :: e in emitted <==> IsAt(b, e.path, e.node) && !Has(a, e)
  {
    hide Walk, Has, HasMark, MarkOf, WellFormed, Below, Preorder, CollisionFree, Difference, Sorted, LeafPaths;
    PreorderSorted(a, []);
    PreorderSorted(b, []);
    LeavesHaveTerm(a, []);
    LeavesHaveTerm(b, []);
    PreorderFirst(a, []);
    var ia := new NodeIterator(a);
    var ib := new NodeIterator(b);
    var it := new DifferenceIterator(ia, ib);
    emitted := it.Drain();
    assert it.bs[0..] == it.bs;
    DifferenceSorted(Preorder(b, []), Preorder(a, []));
    forall e ensures e in emitted <==> IsAt(b, e.path, e.node) && !Has(a, e) {
      InDifference(Preorder(b, []), Preorder(a, []), e);
      RootWalk(b, e);
      HasIsMark(a, e);
    }
  }

  /** The same from a start key in each trie. Roots have a hash. */
  method DifferenceFrom(a: Node, startA: Key, b: Node, startB: Key) returns (emitted: seq<Elem>)
    requires WellFormed(a) && WellFormed(b) && PathFits([], a) && PathFits([], b) && HashOf(b) != 0
    requires CollisionFree(Preorder(a, []), Preorder(b, []))
    ensures emitted == Difference(AtLeast(Preorder(b, []), Nibbles(startB)), AtLeast(Preorder(a, []), Nibbles(startA)))
    ensures Sorted(emitted) && forall e :: e in emitted <==>
              && IsAt(b, e.path, e.node) && !Lt(e.path, Nibbles(startB))
              && !(Has(a, e) && !Lt(e.path, Nibbles(startA)))
  {
    hide Walk, Has, HasMark, Lt, WellFormed, Below, Preorder, CollisionFree, Difference, Sorted, LeafPaths, AtLeast, Nibbles, MarkOf;
    ghost var as', bs := AtLeast(Preorder(a, []), Nibbles(startA)), AtLeast(Preorder(b, []), Nibbles(startB));
    Startable(a, startA);
    Startable(b, startB);
    FewerCollisions(Preorder(a, []), Preorder(b, []), Nibbles(startA), Nibbles(startB));
    FirstHasMark(b, startB);
    var ia := new NodeIterator(a);
    ia.Seek(startA);
    var ib := new NodeIterator(b);
    ib.Seek(startB);
    var it := new DifferenceIterator(ia, ib);
    emitted := it.Drain();
    assert it.bs[0..] == it.bs;
    DifferenceSorted(bs, as');
    forall e ensures e in emitted <==>
              && IsAt(b, e.path, e.node) && !Lt(e.path, Nibbles(startB))
              && !(Has(a, e) && !Lt(e.path, Nibbles(startA)))
    {
      InDifference(bs, as', e);
      InAtLeast(Preorder(b, []), Nibbles(startB), e);
      RootWalk(b, e);
      HasIsMark(a, e);
      MarkAtLeast(Preorder(a, []), Nibbles(startA), e);
    }
  }

  lemma MarkAtLeast(s: seq<Elem>, key: seq<int>, e: Elem)
    ensures HasMark(AtLeast(s, key), MarkOf(e)) <==> HasMark(s, MarkOf(e)) && !Lt(e.path, key)
  {
    hide AtLeast, Lt;
    var t := AtLeast(s, key);
    if HasMark(t, MarkOf(e)) {
      var k :| 0 <= k < |t| && MarkOf(t[k]) == MarkOf(e);
      InAtLeast(s, key, t[k]);
    }
    if HasMark(s, MarkOf(e)) && !Lt(e.path, key) {
      var k :| 0 <= k < |s| && MarkOf(s[k]) == MarkOf(e);
      InAtLeast(s, key, s[k]);
    }
  }

  lemma Startable(n: Node, start: Key)
    requires WellFormed(n) && PathFits([], n)
    ensures var s := AtLeast(Preorder(n, []), Nibbles(start)); Sorted(s) && LeafPaths(s)
  {
    hide WellFormed, Preorder, Nibbles, Sorted, PathFits;
    PreorderSorted(n, []);
    LeavesHaveTerm(n, []);
    AtLeastSorted(Preorder(n, []), Nibbles(start));
    FewerLeaves(Preorder(n, []), Nibbles(start));
  }

  lemma FewerLeaves(s: seq<Elem>, key: seq<int>)
    requires LeafPaths(s)
    ensures LeafPaths(AtLeast(s, key))
  {
    hide PathFits, AtLeast, Lt;
    var t := AtLeast(s, key);
    forall i | 0 <= i < |t| ensures PathFits(t[i].path, t[i].node) {
      InAtLeast(s, key, t[i]);
    }
  }

  lemma FewerCollisions(a: seq<Elem>, b: seq<Elem>, keyA: seq<int>, keyB: seq<int>)
    requires CollisionFree(a, b)
    ensures CollisionFree(AtLeast(a, keyA), AtLeast(b, keyB))
  {
    hide AtLeast, Lt;
    var s, t := AtLeast(a, keyA), AtLeast(b, keyB);
    forall k, l | 0 <= k < |s| && 0 <= l < |t| && HashOf(s[k].node) == HashOf(t[l].node) != 0
      ensures s[k].node == t[l].node
    {
      InAtLeast(a, keyA, s[k]);
      InAtLeast(b, keyB, t[l]);
      assert s[k] in a && t[l] in b;
    }
  }

  lemma FirstHasMark(n: Node, start: Key)
    requires WellFormed(n) && HashOf(n) != 0
    ensures var s := AtLeast(Preorder(n, []), Nibbles(start)); s != [] ==> MarkOf(s[0]) != NoMark()
  {
    hide WellFormed, Preorder, Nibbles, Lt, AtLeast;
    var all := Preorder(n, []);
    var s := AtLeast(all, Nibbles(start));
    if s != [] {
      InAtLeast(all, Nibbles(start), s[0]);
      PreorderSorted(n, []);
      OnlyFirstEmpty(all);
      PreorderFirst(n, []);
      assert s[0] in all;
    }
  }

  lemma EmitOne(bs: seq<Elem>, as': seq<Elem>, j: nat, k: nat)
    requires j < k <= |bs| && AllIn(bs, j, k - 1, as') && !HasMark(as', MarkOf(bs[k-1]))
    ensures Difference(bs[j..], as') == [bs[k-1]] + Difference(bs[k..], as')
  {
    hide HasMark, MarkOf;
    DifferenceSkips(bs[j..], as', k - 1 - j);
    assert bs[j..][k-1-j..] == bs[k-1..];
    assert bs[k-1..][1..] == bs[k..];
  }

  lemma EmitNone(bs: seq<Elem>, as': seq<Elem>, j: nat)
    requires j <= |bs| && AllIn(bs, j, |bs|, as')
    ensures Difference(bs[j..], as') == []
  {
    hide HasMark, MarkOf;
    DifferenceSkips(bs[j..], as', |bs| - j);
  }

  /** Among the leaves, exactly those whose key and value the other trie does not
      have together. */
  lemma LeavesOfDifference(as': seq<Elem>, bs: seq<Elem>, e: Elem)
    requires e.node.Value?
    ensures e in Difference(bs, as') <==> e in bs && e !in as'
  {
    InDifference(bs, as', e);
    if HasMark(as', MarkOf(e)) {
      var k :| 0 <= k < |as'| && MarkOf(as'[k]) == MarkOf(e);
      assert as'[k] == e;
    }
    if e in as' {
      var k :| 0 <= k < |as'| && as'[k] == e;
      assert MarkOf(as'[k]) == MarkOf(e);
    }
  }
}
