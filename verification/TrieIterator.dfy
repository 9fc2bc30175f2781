/**
 * The node iterator: an explicit stack that visits a trie in pre-order, can
 * skip subtries, and can start at a given key (trie/iterator.go).
 */
module TrieIterator {
  import opened Wrappers
  import opened ByteOrder
  import opened TriePreorder
  import opened TrieKeys

  /** A node being iterated: the child last taken, and how much of the path leads
      to its parent. */
  datatype Frame = Frame(node: Node, index: int, pathlen: nat)

  predicate StackOk(stack: seq<Frame>, path: Path) {
    if stack == [] then path == []
    else
      var top := stack[|stack|-1];
      && WellFormed(top.node) && -1 <= top.index < Slots(top.node)
      && top.pathlen <= |path| && StackOk(stack[..|stack|-1], path[..top.pathlen])
  }

  /** The nodes still to be visited: what is below the top from its next child on,
      then what is pending further down the stack. */
  ghost function Pending(stack: seq<Frame>, path: Path): seq<Elem>
    requires StackOk(stack, path)
  {
    if stack == [] then []
    else
      var top := stack[|stack|-1];
      Below(top.node, path, top.index + 1) + Pending(stack[..|stack|-1], path[..top.pathlen])
  }

  function WithTop(stack: seq<Frame>, index: int): seq<Frame>
    requires stack != []
  {
    stack[|stack|-1 := stack[|stack|-1].(index := index)]
  }

  lemma WithTopOk(stack: seq<Frame>, path: Path, index: int)
    requires stack != [] && StackOk(stack, path) && -1 <= index < Slots(stack[|stack|-1].node)
    ensures StackOk(WithTop(stack, index), path)
    ensures var top := stack[|stack|-1];
            Pending(WithTop(stack, index), path)
            == Below(top.node, path, index + 1) + Pending(stack[..|stack|-1], path[..top.pathlen])
  {
    assert WithTop(stack, index)[..|stack|-1] == stack[..|stack|-1];
  }

  /** A child that can be visited next: its frame and its path. */
  ghost predicate IsNext(stack: seq<Frame>, path: Path, f: Frame, p: Path)
    requires stack != [] && StackOk(stack, path)
  {
    var top := stack[|stack|-1];
    && top.index + 1 < Slots(top.node)
    && f == Frame(Slot(top.node, top.index + 1), -1, |path|) && !f.node.Nil?
    && p == path + SlotKey(top.node, top.index + 1)
  }

  lemma PendingPush(stack: seq<Frame>, path: Path, f: Frame, p: Path)
    requires StackOk(stack, path) && WellFormed(f.node)
    requires f.index == -1 && f.pathlen == |path| && path <= p
    ensures StackOk(stack + [f], p)
    ensures Pending(stack + [f], p) == Below(f.node, p, 0) + Pending(stack, path)
  {
    hide WellFormed, Below;
    assert (stack + [f])[..|stack|] == stack;
    assert p[..|path|] == path;
  }

  lemma BelowStep(n: Node, path: Path, i: nat)
    requires WellFormed(n) && i < Slots(n)
    ensures WellFormed(Slot(n, i)) && Slots(n) <= 17
    ensures n.Short? ==> !Slot(n, i).Nil?
    ensures Below(n, path, i) == (if Slot(n, i).Nil? then Below(n, path, i + 1)
              else [Elem(path + SlotKey(n, i), Slot(n, i))] + (Below(Slot(n, i), path + SlotKey(n, i), 0) + Below(n, path, i + 1)))
  {
  }

  /** Pushing it takes exactly the first pending node. */
  lemma PushTakesFirst(stack: seq<Frame>, path: Path, f: Frame, p: Path)
    requires stack != [] && StackOk(stack, path) && IsNext(stack, path, f, p)
    ensures var advanced := WithTop(stack, stack[|stack|-1].index + 1);
            && StackOk(advanced, path) && StackOk(advanced + [f], p) && WellFormed(f.node)
            && Pending(stack, path) == [Elem(p, f.node)] + (Below(f.node, p, 0) + Pending(advanced, path))
            && Pending(advanced + [f], p) == Below(f.node, p, 0) + Pending(advanced, path)
  {
    hide WellFormed, Below, StackOk, Pending;
    StackTop(stack, path);
    var top := stack[|stack|-1];
    var advanced := WithTop(stack, top.index + 1);
    WithTopOk(stack, path, top.index + 1);
    BelowStep(top.node, path, top.index + 1);
    PendingPush(advanced, path, f, p);
    var head, sub := [Elem(p, f.node)], Below(f.node, p, 0);
    var later, rest := Below(top.node, path, top.index + 2), Pending(stack[..|stack|-1], path[..top.pathlen]);
    Regroup(head, sub, later, rest);
  }

  lemma StackTop(stack: seq<Frame>, path: Path)
    requires stack != [] && StackOk(stack, path)
    ensures var top := stack[|stack|-1];
            && WellFormed(top.node) && -1 <= top.index < Slots(top.node)
            && top.pathlen <= |path| && StackOk(stack[..|stack|-1], path[..top.pathlen])
            && Pending(stack, path) == Below(top.node, path, top.index + 1)
                + Pending(stack[..|stack|-1], path[..top.pathlen])
  {
  }

  lemma Regroup<T>(a: seq<T>, b: seq<T>, c: seq<T>, d: seq<T>)
    ensures (a + (b + c)) + d == a + (b + (c + d))
  {
  }

  lemma NothingBelow(n: Node, path: Path)
    requires WellFormed(n)
    ensures Below(n, path, Slots(n)) == []
  {
  }

  class NodeIterator {
    const root: Node
    var stack: seq<Frame>
    var path: Path
    /** it.err == iteratorEnd. */
    var done: bool

    constructor (root: Node)
      requires WellFormed(root)
      ensures Valid() && this.root == root && stack == [] && !done
      ensures Rest(true) == Preorder(root, [])
    {
      this.root := root;
      stack, path, done := [], [], false;
    }

    ghost predicate Valid()
      reads this
    {
      WellFormed(root) && StackOk(stack, path) && (done ==> stack == [])
    }

    /** What successive calls of Next would visit, the first one descending into
        the current node or not. */
    ghost function Rest(descend: bool): seq<Elem>
      requires Valid()
      reads this
    {
      if done then []
      else if stack == [] then Preorder(root, [])
      else if descend then Pending(stack, path)
      else Pending(stack[..|stack|-1], path[..stack[|stack|-1].pathlen])
    }

    /** The node the iterator stands on after a successful Next. */
    ghost predicate At(e: Elem)
      reads this
    {
      stack != [] && !done && path == e.path && stack[|stack|-1].node == e.node && stack[|stack|-1].index == -1
    }

    method Pop()
      requires Valid() && stack != []
      modifies this`stack, this`path
      ensures Valid() && stack == old(stack)[..|old(stack)|-1]
      ensures path == old(path)[..old(stack)[|old(stack)|-1].pathlen]
    {
      var parent := stack[|stack|-1];
      path := path[..parent.pathlen];
      stack := stack[..|stack|-1];
    }

    /** nextChild: the next child of the top node that is not nil. The index moves
        to just before it. */
    method NextChild() returns (next: Option<(Frame, Path)>)
      requires Valid() && stack != []
      modifies this`stack
      ensures Valid() && stack != [] && Pending(stack, path) == Pending(old(stack), path)
      ensures stack[..|stack|-1] == old(stack)[..|old(stack)|-1] && |stack| == |old(stack)|
      ensures stack[|stack|-1].pathlen == old(stack)[|old(stack)|-1].pathlen
      ensures next.Some? ==> IsNext(stack, path, next.value.0, next.value.1)
      ensures next.None? ==> Pending(stack, path) == Pending(stack[..|stack|-1], path[..stack[|stack|-1].pathlen])
    {
      hide WellFormed, Below;
      var parent := stack[|stack|-1];
      var node := parent.node;
      match node {
        case Full(children, _) =>
          for i := parent.index + 1 to |children|
            invariant stack == old(stack) && Below(node, path, parent.index + 1) == Below(node, path, i)
          {
            BelowStep(node, path, i);
            if !children[i].Nil? {
              WithTopOk(stack, path, i - 1);
              stack := WithTop(stack, i - 1);
              return Some((Frame(children[i], -1, |path|), path + [i]));
            }
          }
        case Short(key, child, _) =>
          if parent.index < 0 {
            BelowStep(node, path, 0);
            return Some((Frame(child, -1, |path|), path + key));
          }
        case _ =>
      }
      NothingBelow(node, path);
      return None;
    }

    /** peek: the next node, without moving onto it. */
    method Peek(descend: bool) returns (next: Option<(Frame, Path)>)
      requires Valid() && !done
      modifies this`stack, this`path
      ensures Valid()
      ensures next.None? ==> old(Rest(descend)) == [] && stack == []
      ensures next.Some? && old(stack) == [] ==> stack == [] && next == Some((Frame(root, -1, 0), []))
      ensures next.Some? && old(stack) != [] ==>
                stack != [] && Rest(true) == old(Rest(descend)) && IsNext(stack, path, next.value.0, next.value.1)
    {
      hide WellFormed, Below, StackOk, Pending, IsNext;
      if stack == [] {
        return Some((Frame(root, -1, 0), []));
      }
      StackTop(stack, path);
      if !descend {
        Pop();
      }
      while stack != []
        invariant Valid() && Pending(stack, path) == old(Rest(descend))
        decreases |stack|
      {
        next := NextChild();
        if next.Some? {
          return;
        }
        StackTop(stack, path);
        Pop();
      }
      EmptyStack(path);
      return None;
    }

    /** push: moves onto the node that Peek found. */
    method Push(f: Frame, p: Path)
      requires Valid() && !done
      requires if stack == [] then f == Frame(root, -1, 0) && p == [] else IsNext(stack, path, f, p)
      modifies this`stack, this`path
      ensures Valid() && At(Elem(p, f.node))
      ensures old(Rest(true)) == [Elem(p, f.node)] + Rest(true)
      ensures WellFormed(f.node) && Rest(true) == Below(f.node, p, 0) + Rest(false)
    {
      hide WellFormed, Below, StackOk, Pending;
      if stack == [] {
        NothingPending();
        PendingPush([], [], f, p);
        assert stack + [f] == [f] && [f][..0] == [];
      } else {
        PushTakesFirst(stack, path, f, p);
        stack := WithTop(stack, stack[|stack|-1].index + 1);
        assert (stack + [f])[..|stack|] == stack && p[..|path|] == path;
      }
      stack, path := stack + [f], p;
    }

    /** Next: visits the next node, skipping what is below the current one unless
        told to descend. */
    method Next(descend: bool) returns (more: bool)
      requires Valid()
      modifies this
      ensures Valid() && more == (old(Rest(descend)) != [])
      ensures more ==> At(old(Rest(descend))[0]) && Rest(true) == old(Rest(descend))[1..]
      ensures more ==> WellFormed(stack[|stack|-1].node) && Rest(true) == Below(stack[|stack|-1].node, path, 0) + Rest(false)
      ensures !more ==> done
    {
      hide WellFormed, Below, StackOk, Pending, IsNext;
      if done {
        return false;
      }
      var next := Peek(descend);
      if next.None? {
        done := true;
        return false;
      }
      Push(next.value.0, next.value.1);
      return true;
    }

    /** seek: moves to just before the first node whose path is not below the
        start key. */
    method Seek(start: Key)
      requires Valid() && stack == [] && !done
      modifies this
      ensures Valid() && Rest(true) == AtLeast(Preorder(root, []), Nibbles(start))
    {
      hide WellFormed, Below, StackOk, Pending, IsNext, Preorder, Nibbles, Lt, AtLeast, Sorted, Smaller;
      var key := Nibbles(start);
      ghost var all, d := Preorder(root, []), 0;
      PreorderSorted(root, []);
      NoneSmaller(all, key);
      while true
        invariant Valid() && !done && 0 <= d <= |all|
        invariant Rest(path <= key) == all[d..] && Smaller(all, d, key)
        decreases |all| - d
      {
        var next := Peek(path <= key);
        if next.None? {
          done := true;
          SuffixAtLeast(all, key, d);
          return;
        }
        var (f, p) := next.value;
        ghost var rest := Rest(true);
        if !Lt(p, key) {
          FirstOfRest(f, p);
          SuffixAtLeast(all, key, d);
          return;
        }
        Push(f, p);
        OneSmaller(all, d, key, rest, Rest(true), Elem(p, f.node));
        d := d + 1;
        if !(p <= key) {
          SkipBelow(all, d, f.node, p, key, Rest(false));
          d := d + |Below(f.node, p, 0)|;
        }
      }
    }

    /** What Peek found is the first of the rest. */
    lemma FirstOfRest(f: Frame, p: Path)
      requires Valid() && !done
      requires if stack == [] then f == Frame(root, -1, 0) && p == [] else IsNext(stack, path, f, p)
      ensures Rest(true) != [] && Rest(true)[0] == Elem(p, f.node)
    {
      hide WellFormed, Below, StackOk, Pending, IsNext;
      if stack != [] {
        PushTakesFirst(stack, path, f, p);
      } else {
        PreorderFirst(root, []);
      }
    }

    /** Repeated Next(true). */
    method VisitAll() returns (visited: seq<Elem>)
      requires Valid()
      modifies this
      ensures Valid() && visited == old(Rest(true))
    {
      hide WellFormed, Below, StackOk, Pending, Preorder;
      visited := [];
      var more := true;
      while more
        invariant Valid() && visited + Rest(true) == old(Rest(true)) && (!more ==> Rest(true) == [])
        decreases |Rest(true)|, more
      {
        more := Next(true);
        if more {
          visited := visited + [Elem(path, stack[|stack|-1].node)];
        }
      }
    }

    /** LeafKey: the key bytes of the value the iterator stands on. */
    method LeafKey() returns (key: array<Byte>)
      requires Valid() && stack != [] && stack[|stack|-1].node.Value?
      requires PathFits(path, stack[|stack|-1].node) && |path| % 2 == 1
      ensures fresh(key) && path == Nibbles(key[..]) + [TERMINATOR]
    {
      key := HexToKeybytes(path);
      assert path == WithoutTerm(path) + [TERMINATOR];
    }
  }

  lemma PreorderFirst(n: Node, path: Path)
    requires WellFormed(n)
    ensures Preorder(n, path) != [] && Preorder(n, path)[0] == Elem(path, n)
  {
  }

  /** The elements whose path is not below the key, in order. */
  ghost function AtLeast(s: seq<Elem>, key: seq<int>): seq<Elem> {
    if s == [] then []
    else (if Lt(s[0].path, key) then [] else [s[0]]) + AtLeast(s[1..], key)
  }

  lemma {:induction false} AtLeastKeepsAll(s: seq<Elem>, key: seq<int>)
    requires forall i :: 0 <= i < |s| ==> !Lt(s[i].path, key)
    ensures AtLeast(s, key) == s
  {
    if s != [] {
      AtLeastKeepsAll(s[1..], key);
    }
  }

  lemma {:induction false} AtLeastDrops(s: seq<Elem>, key: seq<int>, d: nat)
    requires d <= |s| && forall i :: 0 <= i < d ==> Lt(s[i].path, key)
    ensures AtLeast(s, key) == AtLeast(s[d..], key)
  {
    if d > 0 {
      AtLeastDrops(s[1..], key, d - 1);
      assert s[1..][d-1..] == s[d..];
    }
  }

  /** The first d elements are below the key. */
  ghost predicate Smaller(s: seq<Elem>, d: nat, key: seq<int>)
    requires d <= |s|
  {
    forall i :: 0 <= i < d ==> Lt(s[i].path, key)
  }

  lemma NoneSmaller(s: seq<Elem>, key: seq<int>)
    ensures Smaller(s, 0, key) && s[0..] == s
  {
  }

  lemma OneSmaller(s: seq<Elem>, d: nat, key: seq<int>, rest: seq<Elem>, left: seq<Elem>, e: Elem)
    requires d <= |s| && Smaller(s, d, key) && rest == s[d..] && rest == [e] + left && Lt(e.path, key)
    ensures d < |s| && Smaller(s, d + 1, key) && s[d + 1..] == left
  {
    hide Lt;
    assert s[d] == rest[0] && s[d + 1..] == rest[1..];
  }

  /** In a sorted sequence the elements not below the key form a suffix. */
  lemma SuffixAtLeast(s: seq<Elem>, key: seq<int>, d: nat)
    requires Sorted(s) && d <= |s| && Smaller(s, d, key)
    requires d < |s| ==> !Lt(s[d].path, key)
    ensures AtLeast(s, key) == s[d..]
  {
    AtLeastDrops(s, key, d);
    forall i | d <= i < |s| ensures !Lt(s[i].path, key) {
      if i > d && Lt(s[i].path, key) {
        LtTransitive(s[d].path, s[i].path, key);
      }
    }
    AtLeastKeepsAll(s[d..], key);
  }

  lemma {:induction false} InAtLeast(s: seq<Elem>, key: seq<int>, e: Elem)
    ensures e in AtLeast(s, key) <==> e in s && !Lt(e.path, key)
  {
    if s != [] {
      InAtLeast(s[1..], key, e);
    }
  }

  lemma AllSmaller(n: Node, p: Path, key: seq<int>)
    requires WellFormed(n) && Lt(p, key) && !(p <= key)
    ensures forall i :: 0 <= i < |Below(n, p, 0)| ==> Lt(Below(n, p, 0)[i].path, key)
  {
    hide WellFormed, Below;
    BelowSorted(n, p, 0);
    forall i | 0 <= i < |Below(n, p, 0)| ensures Lt(Below(n, p, 0)[i].path, key) {
      var q := Below(n, p, 0)[i].path;
      assert q == p + q[|p|..];
      BelowSmaller(p, q[|p|..], key);
    }
  }

  lemma SkipBelow(all: seq<Elem>, d: nat, n: Node, p: Path, key: seq<int>, rest: seq<Elem>)
    requires WellFormed(n) && Lt(p, key) && !(p <= key)
    requires d <= |all| && all[d..] == Below(n, p, 0) + rest && Smaller(all, d, key)
    ensures d + |Below(n, p, 0)| <= |all| && all[d + |Below(n, p, 0)|..] == rest
    ensures Smaller(all, d + |Below(n, p, 0)|, key)
  {
    hide WellFormed, Below, Lt;
    var below := Below(n, p, 0);
    AllSmaller(n, p, key);
    assert forall i :: d <= i < d + |below| ==> all[i] == all[d..][i - d] == below[i - d];
    assert all[d + |below|..] == all[d..][|below|..];
  }

  /** An iteration from a start key visits, in strictly increasing path order and
      each once, exactly the nodes that a path not below the start leads to. */
  method IterateFrom(root: Node, start: Key) returns (visited: seq<Elem>)
    requires WellFormed(root)
    ensures Sorted(visited)
    ensures forall e :: e in visited <==> IsAt(root, e.path, e.node) && !Lt(e.path, Nibbles(start))
  {
    hide WellFormed, Preorder, Nibbles, Walk, Lt;
    var it := new NodeIterator(root);
    it.Seek(start);
    visited := it.VisitAll();
    PreorderSorted(root, []);
    AtLeastSorted(Preorder(root, []), Nibbles(start));
    forall e ensures e in visited <==> IsAt(root, e.path, e.node) && !Lt(e.path, Nibbles(start)) {
      RootWalk(root, e);
      InAtLeast(Preorder(root, []), Nibbles(start), e);
    }
  }

  lemma {:induction false} AtLeastSorted(s: seq<Elem>, key: seq<int>)
    requires Sorted(s)
    ensures Sorted(AtLeast(s, key))
  {
    if s != [] {
      AtLeastSorted(s[1..], key);
      var rest := AtLeast(s[1..], key);
      forall j | 0 <= j < |rest| ensures Lt(s[0].path, rest[j].path) {
        InAtLeast(s[1..], key, rest[j]);
        assert rest[j] in s[1..];
      }
      SortedConcat([s[0]], rest);
    }
  }

  /** Which keys an iteration from a start key yields: those not below the start,
      and those that are proper prefixes of it. */
  lemma KeysFromStart(all: seq<Elem>, start: Key, key: Key, e: Elem)
    requires e in all && e.path == Nibbles(key) + [TERMINATOR]
    ensures e in AtLeast(all, Nibbles(start)) <==> !Lt(key, start) || key <= start
  {
    InAtLeast(all, Nibbles(start), e);
    HexOrder(key, start);
  }

  /** A trie of one key that is below the start, and the start's proper prefix. */
  function OneKeyTrie(): Node {
    Short(Nibbles([1]) + [TERMINATOR], Value([7]), 1)
  }

  /** The key is visited nevertheless. */
  lemma PrefixBelowStart()
    ensures Lt([1], [1, 2]) && WellFormed(OneKeyTrie())
    ensures var e := Elem(Nibbles([1]) + [TERMINATOR], Value([7]));
            e in Preorder(OneKeyTrie(), []) && e in AtLeast(Preorder(OneKeyTrie(), []), Nibbles([1, 2]))
  {
    var root, key := OneKeyTrie(), Nibbles([1]) + [TERMINATOR];
    assert Nibbles([1]) == [0, 1];
    assert WellFormed(root.child);
    var e := Elem(key, Value([7]));
    assert [] + key == key;
    assert Below(root, [], 0) == Preorder(root.child, key) + Below(root, [], 1);
    assert Preorder(root.child, key) == [e] + Below(root.child, key, 0);
    assert e in Preorder(root, []);
    KeysFromStart(Preorder(root, []), [1, 2], [1], e);
    assert [1] <= [1, 2];
  }

  // ----- keys and values -----

  /** Every value sits at the hex form of a whole number of key bytes. */
  ghost predicate WholeKeys(s: seq<Elem>) {
    forall i :: 0 <= i < |s| && s[i].node.Value? ==> |s[i].path| % 2 == 1
  }

  datatype Entry = Entry(key: seq<Byte>, value: Blob)

  /** The entries at the leaves, in order. */
  ghost function Entries(s: seq<Elem>): seq<Entry>
    requires LeafPaths(s) && WholeKeys(s)
  {
    if s == [] then []
    else
      var rest := s[1..];
      assert LeafPaths(rest) && WholeKeys(rest);
      if s[0].node.Value? then [Entry(Pack(WithoutTerm(s[0].path)), s[0].node.blob)] + Entries(rest) else Entries(rest)
  }

  /** An entry is listed exactly if a leaf with its value stands at its key. */
  lemma {:induction false} EntriesAreLeaves(s: seq<Elem>, entry: Entry)
    requires LeafPaths(s) && WholeKeys(s)
    ensures entry in Entries(s) <==> Elem(Nibbles(entry.key) + [TERMINATOR], Value(entry.value)) in s
  {
    if s != [] {
      EntriesAreLeaves(s[1..], entry);
      assert s == [s[0]] + s[1..];
      if s[0].node.Value? {
        LeafEntry(s[0].path, entry.key);
      }
    }
  }

  lemma LeafEntry(path: Path, key: Key)
    requires PathFits(path, Value([])) && |path| % 2 == 1
    ensures Pack(WithoutTerm(path)) == key <==> path == Nibbles(key) + [TERMINATOR]
  {
    var hex := WithoutTerm(path);
    assert path == hex + [TERMINATOR];
    NibblesOfPack(hex);
    PackOfNibbles(key);
    if path == Nibbles(key) + [TERMINATOR] {
      assert hex == Nibbles(key);
    }
  }

  lemma LeavesOfRest(s: seq<Elem>)
    requires s != [] && LeafPaths(s) && WholeKeys(s)
    ensures LeafPaths(s[1..]) && WholeKeys(s[1..]) && PathFits(s[0].path, s[0].node)
    ensures s[0].node.Value? ==> |s[0].path| % 2 == 1
    ensures s[0].node.Value? ==> Entries(s) == [Entry(Pack(WithoutTerm(s[0].path)), s[0].node.blob)] + Entries(s[1..])
    ensures !s[0].node.Value? ==> Entries(s) == Entries(s[1..])
  {
  }

  /** Entries in increasing order of the hex form of their keys, so none twice. */
  ghost predicate InKeyOrder(entries: seq<Entry>) {
    forall i, j :: 0 <= i < j < |entries| ==>
      Lt(Nibbles(entries[i].key) + [TERMINATOR], Nibbles(entries[j].key) + [TERMINATOR])
  }

  lemma {:induction false} EntriesInOrder(s: seq<Elem>)
    requires Sorted(s) && LeafPaths(s) && WholeKeys(s)
    ensures InKeyOrder(Entries(s))
  {
    hide Lt, Nibbles, PathFits, Entries, WithoutTerm, Pack;
    if s == [] {
      NoEntries();
    } else {
      LeavesOfRest(s);
      EntriesInOrder(s[1..]);
      if s[0].node.Value? {
        var entries, rest := Entries(s), Entries(s[1..]);
        LeafEntry(s[0].path, entries[0].key);
        forall j | 0 < j < |entries| ensures Lt(s[0].path, Nibbles(entries[j].key) + [TERMINATOR]) {
          assert entries[j] == rest[j - 1];
          EntriesAreLeaves(s[1..], entries[j]);
        }
      }
    }
  }

  /** Iterator: the keys and values of a trie. */
  class Iterator {
    const nodeIt: NodeIterator
    var key: Key
    var value: Blob

    /** What is still to come has its values at whole keys. */
    ghost predicate Valid()
      reads this, nodeIt
    {
      nodeIt.Valid() && LeafPaths(nodeIt.Rest(true)) && WholeKeys(nodeIt.Rest(true))
    }

    constructor (nodeIt: NodeIterator)
      requires nodeIt.Valid() && LeafPaths(nodeIt.Rest(true)) && WholeKeys(nodeIt.Rest(true))
      ensures Valid() && this.nodeIt == nodeIt
    {
      this.nodeIt := nodeIt;
      key, value := [], [];
    }

    /** Next: moves on to the next leaf and recovers its key. */
    method Next() returns (more: bool)
      requires Valid()
      modifies this, nodeIt
      ensures Valid() && more == (old(Entries(nodeIt.Rest(true))) != [])
      ensures more ==> old(Entries(nodeIt.Rest(true))) == [Entry(key, value)] + Entries(nodeIt.Rest(true))
      ensures !more ==> key == [] && value == [] && Entries(nodeIt.Rest(true)) == []
    {
      hide WellFormed, Below, StackOk, Pending, Preorder, Entries, LeafPaths, WholeKeys, PathFits, Nibbles, Pack;
      while true
        invariant Valid() && Entries(nodeIt.Rest(true)) == old(Entries(nodeIt.Rest(true)))
        decreases |nodeIt.Rest(true)|
      {
        ghost var rest := nodeIt.Rest(true);
        var step := nodeIt.Next(true);
        if !step {
          NoEntries();
          key, value := [], [];
          return false;
        }
        LeavesOfRest(rest);
        var node := nodeIt.stack[|nodeIt.stack| - 1].node;
        if node.Value? {
          var bytes := nodeIt.LeafKey();
          key, value := bytes[..], node.blob;
          AtKey(nodeIt.path, key, node);
          return true;
        }
      }
    }

    /** Repeated Next. */
    method All() returns (entries: seq<Entry>)
      requires Valid()
      modifies this, nodeIt
      ensures Valid() && entries == old(Entries(nodeIt.Rest(true)))
    {
      hide WellFormed, Below, StackOk, Pending, Preorder, Entries, LeafPaths, WholeKeys, NodeIterator.Valid;
      hide NodeIterator.Rest;
      entries := [];
      var more := true;
      while more
        invariant Valid() && entries + Entries(nodeIt.Rest(true)) == old(Entries(nodeIt.Rest(true)))
        invariant !more ==> Entries(nodeIt.Rest(true)) == []
        decreases |Entries(nodeIt.Rest(true))|, more
      {
        more := Next();
        if more {
          entries := entries + [Entry(key, value)];
        }
      }
    }
  }

  lemma NoEntries()
    ensures Entries([]) == [] && LeafPaths([]) && WholeKeys([])
  {
  }

  lemma AtKey(path: Path, key: Key, node: Node)
    requires PathFits(path, node) && node.Value? && |path| % 2 == 1 && path == Nibbles(key) + [TERMINATOR]
    ensures Pack(WithoutTerm(path)) == key
  {
    LeafEntry(path, key);
  }

  lemma {:induction false} AtLeastLeaves(s: seq<Elem>, key: seq<int>)
    requires LeafPaths(s) && WholeKeys(s)
    ensures LeafPaths(AtLeast(s, key)) && WholeKeys(AtLeast(s, key))
  {
    hide PathFits, Lt;
    if s != [] {
      AtLeastLeaves(s[1..], key);
    }
  }

  /** Get: the value at a key, looked up in its hex form. */
  function Get(root: Node, key: Key): Option<Blob>
    requires WellFormed(root) && PathFits([], root)
  {
    HexTerminated(key);
    TryGet(root, Nibbles(key) + [TERMINATOR], 0)
  }

  lemma HexTerminated(key: Key)
    ensures IsTerminated(Nibbles(key) + [TERMINATOR])
  {
    PackOfNibbles(key);
  }

  /** A lookup finds exactly what an iteration comes to. */
  lemma GetIsVisit(root: Node, key: Key, value: Blob)
    requires WellFormed(root) && PathFits([], root)
    ensures Get(root, key) == Some(value) <==>
              Elem(Nibbles(key) + [TERMINATOR], Value(value)) in Preorder(root, [])
  {
    hide WellFormed, Preorder, Nibbles, Walk, TryGet;
    var hex := Nibbles(key) + [TERMINATOR];
    HexTerminated(key);
    GetIsWalk(root, hex, 0, value);
    assert hex[0..] == hex;
    RootWalk(root, Elem(hex, Value(value)));
  }

  /** The entries from a start key: those that a lookup finds and whose key is not below the
      start or is a prefix of it. */
  method EntriesFrom(root: Node, start: Key) returns (entries: seq<Entry>)
    requires WellFormed(root) && PathFits([], root) && WholeKeys(Preorder(root, []))
    ensures forall entry :: entry in entries <==>
              Get(root, entry.key) == Some(entry.value) && (!Lt(entry.key, start) || entry.key <= start)
    ensures InKeyOrder(entries)
  {
    hide WellFormed, Preorder, Nibbles, PathFits, WholeKeys, LeafPaths, Entries, AtLeast, Lt, InKeyOrder, Sorted, Get;
    var nodeIt := new NodeIterator(root);
    nodeIt.Seek(start);
    ghost var all, rest := Preorder(root, []), AtLeast(Preorder(root, []), Nibbles(start));
    LeavesHaveTerm(root, []);
    AtLeastLeaves(all, Nibbles(start));
    var it := new Iterator(nodeIt);
    entries := it.All();
    PreorderSorted(root, []);
    AtLeastSorted(all, Nibbles(start));
    EntriesInOrder(rest);
    forall entry ensures entry in entries <==>
              Get(root, entry.key) == Some(entry.value) && (!Lt(entry.key, start) || entry.key <= start)
    {
      GetIsVisit(root, entry.key, entry.value);
      var e := Elem(Nibbles(entry.key) + [TERMINATOR], Value(entry.value));
      EntriesAreLeaves(rest, entry);
      InAtLeast(all, Nibbles(start), e);
      if e in all {
        KeysFromStart(all, start, entry.key, e);
      }
    }
  }

  lemma EmptyStack(path: Path)
    requires StackOk([], path)
    ensures path == [] && Pending([], path) == []
  {
  }

  lemma NothingPending()
    ensures StackOk([], []) && Pending([], []) == []
  {
  }
}
