/**
 * Tries as values and the order in which their nodes are visited: pre-order is
 * strictly increasing in the hex path.
 */
module TriePreorder {
  import opened ByteOrder
  import opened Wrappers

  /** A path element: one of sixteen nibbles, or the terminator. */
  type Nibble = n: int | 0 <= n <= 16
  type Path = seq<Nibble>
  const TERMINATOR: Nibble := 16

  type Hash = nat
  type Blob = seq<int>

  /** A trie node with its children loaded. Nodes too small to be stored on their
      own have the zero hash. */
  datatype Node =
    | Nil
    | Value(blob: Blob)
    | Short(key: Path, child: Node, shash: Hash)
    | Full(children: seq<Node>, fhash: Hash)

  function HashOf(n: Node): Hash {
    match n
    case Short(_, _, h) => h
    case Full(_, h) => h
    case _ => 0
  }

  /** hasTerm. */
  predicate HasTerm(p: Path) {
    |p| > 0 && p[|p|-1] == TERMINATOR
  }

  /** Short nodes have a key; values sit exactly below terminators. */
  predicate WellFormed(n: Node) {
    match n
    case Nil => true
    case Value(_) => true
    case Short(key, child, _) =>
      && key != [] && !child.Nil? && (HasTerm(key) <==> child.Value?)
      && (forall i :: 0 <= i < |key| - 1 ==> key[i] != TERMINATOR)
      && WellFormed(child)
    case Full(children, _) =>
      && |children| == 17
      && (forall i :: 0 <= i < 17 && children[i].Value? ==> i == 16)
      && (children[16].Value? || children[16].Nil?)
      && forall i :: 0 <= i < 17 ==> WellFormed(children[i])
  }

  // ----- pre-order -----

  /** A visited node and the path to it. */
  datatype Elem = Elem(path: Path, node: Node)

  /** How many children slots a node has, and what they hold. */
  function Slots(n: Node): nat {
    match n
    case Short(_, _, _) => 1
    case Full(children, _) => |children|
    case _ => 0
  }

  function Slot(n: Node, i: nat): Node
    requires i < Slots(n)
  {
    match n
    case Short(_, child, _) => child
    case Full(children, _) => children[i]
  }

  function SlotKey(n: Node, i: nat): Path
    requires i < Slots(n) <= 17
  {
    match n
    case Short(key, _, _) => key
    case Full(_, _) => [i]
  }

  function Preorder(n: Node, path: Path): seq<Elem>
    requires WellFormed(n)
    decreases n, 18
  {
    [Elem(path, n)] + Below(n, path, 0)
  }

  /** The nodes below n, from its i-th child on. */
  function Below(n: Node, path: Path, i: nat): seq<Elem>
    requires WellFormed(n) && i <= Slots(n)
    decreases n, Slots(n) - i
  {
    if i == Slots(n) then []
    else (if Slot(n, i).Nil? then [] else Preorder(Slot(n, i), path + SlotKey(n, i))) + Below(n, path, i + 1)
  }

  ghost predicate Sorted(s: seq<Elem>) {
    forall i, j :: 0 <= i < j < |s| ==> Lt(s[i].path, s[j].path)
  }

  ghost predicate AllBelow(s: seq<Elem>, path: Path) {
    forall i :: 0 <= i < |s| ==> path <= s[i].path
  }

  lemma SortedConcat(a: seq<Elem>, b: seq<Elem>)
    requires Sorted(a) && Sorted(b)
    requires forall i, j :: 0 <= i < |a| && 0 <= j < |b| ==> Lt(a[i].path, b[j].path)
    ensures Sorted(a + b)
  {
  }

  /** Paths below different children of a full node are ordered like the children. */
  lemma SiblingsOrdered(path: Path, i: Nibble, j: Nibble, p: Path, q: Path)
    requires i < j && path + [i] <= p && path + [j] <= q
    ensures Lt(p, q)
  {
    var a, b := p[|path|..], q[|path|..];
    assert p == path + a && q == path + b;
    assert a[0] == i && b[0] == j;
    LtPrefix(path, a, b);
  }

  /** Everything below a node extends its path, and the order is strict. */
  lemma {:induction false} PreorderSorted(n: Node, path: Path)
    requires WellFormed(n)
    ensures Sorted(Preorder(n, path)) && AllBelow(Preorder(n, path), path)
    decreases n, 18
  {
    BelowSorted(n, path, 0);
    var below := Below(n, path, 0);
    forall j | 0 <= j < |below| ensures Lt(path, below[j].path) {
      var p := below[j].path;
      assert p == path + p[|path|..];
      ExtensionIsGreater(path, p[|path|..]);
    }
    SortedConcat([Elem(path, n)], below);
  }

  lemma {:induction false} BelowSorted(n: Node, path: Path, i: nat)
    requires WellFormed(n) && i <= Slots(n)
    ensures Sorted(Below(n, path, i))
    ensures forall k :: 0 <= k < |Below(n, path, i)| ==>
              path <= Below(n, path, i)[k].path && |path| < |Below(n, path, i)[k].path|
    ensures n.Full? ==> forall k :: 0 <= k < |Below(n, path, i)| ==> i <= Below(n, path, i)[k].path[|path|]
    decreases n, Slots(n) - i
  {
    if i < Slots(n) {
      BelowSorted(n, path, i + 1);
      var rest := Below(n, path, i + 1);
      if !Slot(n, i).Nil? {
        var sub := path + SlotKey(n, i);
        PreorderSorted(Slot(n, i), sub);
        var first := Preorder(Slot(n, i), sub);
        assert forall k :: 0 <= k < |first| ==> path <= first[k].path && |path| < |first[k].path|;
        if n.Full? {
          assert forall k :: 0 <= k < |first| ==> first[k].path[|path|] == i;
          forall j, k | 0 <= j < |first| && 0 <= k < |rest| ensures Lt(first[j].path, rest[k].path) {
            var q := rest[k].path;
            assert path + [q[|path|]] <= q;
            SiblingsOrdered(path, i, q[|path|], first[j].path, q);
          }
        }
        SortedConcat(first, rest);
      }
    }
  }

  /** A path holds the terminator exactly at the values, and only at its end. */
  predicate PathFits(path: Path, n: Node) {
    && (HasTerm(path) <==> n.Value?)
    && forall i :: 0 <= i < |path| - 1 ==> path[i] != TERMINATOR
  }

  ghost predicate LeafPaths(s: seq<Elem>) {
    forall i :: 0 <= i < |s| ==> PathFits(s[i].path, s[i].node)
  }

  lemma {:induction false} LeavesHaveTerm(n: Node, path: Path)
    requires WellFormed(n) && PathFits(path, n)
    ensures LeafPaths(Preorder(n, path))
    decreases n, 18
  {
    LeavesBelow(n, path, 0);
  }

  lemma {:induction false} LeavesBelow(n: Node, path: Path, i: nat)
    requires WellFormed(n) && PathFits(path, n) && i <= Slots(n)
    ensures LeafPaths(Below(n, path, i))
    decreases n, Slots(n) - i
  {
    if i < Slots(n) {
      LeavesBelow(n, path, i + 1);
      if !Slot(n, i).Nil? {
        LeavesHaveTerm(Slot(n, i), path + SlotKey(n, i));
      }
    }
  }

  // ----- looking up -----

  /** The node at the end of a path, going down one key or one slot at a time. */
  function Walk(n: Node, p: Path): Option<Node> {
    if p == [] then Some(n)
    else
      match n
      case Short(key, child, _) => if key <= p then Walk(child, p[|key|..]) else None
      case Full(children, _) => if p[0] < |children| then Walk(children[p[0]], p[1..]) else None
      case _ => None
  }

  /** The path leads to the node. An empty slot is no node. */
  predicate IsAt(n: Node, p: Path, node: Node) {
    Walk(n, p) == Some(node) && (p == [] || !node.Nil?)
  }

  /** Pre-order holds exactly the nodes that paths lead to. */
  lemma {:induction false} PreorderIsWalk(n: Node, path: Path, e: Elem)
    requires WellFormed(n)
    ensures e in Preorder(n, path) <==> path <= e.path && IsAt(n, e.path[|path|..], e.node)
    decreases n, 18
  {
    BelowIsWalk(n, path, 0, e);
    if path <= e.path && |path| == |e.path| {
      assert e.path == path && e.path[|path|..] == [];
    }
  }

  /** A path into a slot leads where the rest of it leads from the child there. */
  lemma SlotWalk(n: Node, i: nat, p: Path, node: Node)
    requires WellFormed(n) && i < Slots(n) && p != []
    ensures IsAt(n, p, node) && (n.Full? ==> p[0] == i) <==>
              && !Slot(n, i).Nil? && SlotKey(n, i) <= p
              && IsAt(Slot(n, i), p[|SlotKey(n, i)|..], node)
  {
    if n.Full? {
      assert [i] <= p <==> p[0] == i;
    }
    if SlotKey(n, i) <= p {
      assert Walk(n, p) == Walk(Slot(n, i), p[|SlotKey(n, i)|..]);
    }
  }

  lemma {:induction false} BelowIsWalk(n: Node, path: Path, i: nat, e: Elem)
    requires WellFormed(n) && i <= Slots(n)
    ensures e in Below(n, path, i) <==>
              && path <= e.path && |path| < |e.path| && IsAt(n, e.path[|path|..], e.node)
              && if n.Full? then i <= e.path[|path|] else i == 0
    decreases n, Slots(n) - i
  {
    hide Walk, IsAt;
    if i == Slots(n) {
      if path <= e.path && |path| < |e.path| {
        NoSlots(n, path, e);
      }
    } else {
      BelowIsWalk(n, path, i + 1, e);
      var sub, child := path + SlotKey(n, i), Slot(n, i);
      PreorderIsWalk(child, sub, e);
      if path <= e.path {
        var rest := e.path[|path|..];
        assert sub <= e.path <==> SlotKey(n, i) <= rest;
        if rest != [] {
          SlotWalk(n, i, rest, e.node);
        }
        if sub <= e.path {
          assert e.path[|sub|..] == rest[|SlotKey(n, i)|..];
        }
      }
    }
  }

  lemma NoSlots(n: Node, path: Path, e: Elem)
    requires WellFormed(n) && path <= e.path && |path| < |e.path|
    ensures IsAt(n, e.path[|path|..], e.node) ==> Slots(n) > 0
  {
  }

  /** A key in hex form: the terminator at its end and nowhere else. */
  predicate IsTerminated(key: Path) {
    PathFits(key, Value([]))
  }

  /** A walk from the root of a trie. */
  lemma RootWalk(n: Node, e: Elem)
    requires WellFormed(n)
    ensures e in Preorder(n, []) <==> IsAt(n, e.path, e.node)
  {
    hide WellFormed, Preorder, Walk;
    PreorderIsWalk(n, [], e);
    assert e.path[0..] == e.path;
  }

  /** tryGet, from the given position of the key on. */
  function TryGet(n: Node, key: Path, pos: nat): Option<Blob>
    requires WellFormed(n) && IsTerminated(key) && pos <= |key|
    requires n.Value? ==> pos == |key|
    requires pos == |key| ==> n.Value? || n.Nil?
  {
    match n
    case Nil => None
    case Value(blob) => Some(blob)
    case Short(k, child, _) =>
      if |key| - pos < |k| || k != key[pos..pos + |k|] then None
      else
        assert key[pos + |k| - 1] == k[|k| - 1];
        TryGet(child, key, pos + |k|)
    case Full(children, _) =>
      TryGet(children[key[pos]], key, pos + 1)
  }

  /** A key is found exactly if it leads to a value. */
  lemma {:induction false} GetIsWalk(n: Node, key: Path, pos: nat, blob: Blob)
    requires WellFormed(n) && IsTerminated(key) && pos <= |key|
    requires n.Value? ==> pos == |key|
    requires pos == |key| ==> n.Value? || n.Nil?
    ensures TryGet(n, key, pos) == Some(blob) <==> Walk(n, key[pos..]) == Some(Value(blob))
    decreases n
  {
    var rest := key[pos..];
    match n {
      case Short(k, child, _) =>
        if |k| <= |rest| && k == key[pos..pos + |k|] {
          assert key[pos + |k| - 1] == k[|k| - 1];
          assert k <= rest && rest[|k|..] == key[pos + |k|..];
          GetIsWalk(child, key, pos + |k|, blob);
        }
      case Full(children, _) =>
        assert rest[0] == key[pos] && rest[1..] == key[pos + 1..];
        GetIsWalk(children[key[pos]], key, pos + 1, blob);
      case _ =>
    }
  }
}
