/**
 * Binary heaps in a sequence, ordered by an integer key: what container/heap
 * guarantees its callers. How the elements are arranged beyond that is open;
 * here an operation leaves them sorted.
 */
module Heap {

  ghost predicate IsHeap<T>(h: seq<T>, key: T -> int) {
    forall i, j :: 0 <= i < j < |h| && i == (j - 1) / 2 ==> key(h[i]) <= key(h[j])
  }

  ghost predicate IsSorted<T>(s: seq<T>, key: T -> int) {
    forall i, j :: 0 <= i < j < |s| ==> key(s[i]) <= key(s[j])
  }

  lemma {:induction false} RootIsLeast<T>(h: seq<T>, key: T -> int, i: nat)
    requires IsHeap(h, key) && i < |h|
    ensures key(h[0]) <= key(h[i])
    decreases i
  {
    if i > 0 {
      RootIsLeast(h, key, (i - 1) / 2);
    }
  }

  lemma SortedIsHeap<T>(s: seq<T>, key: T -> int)
    requires IsSorted(s, key)
    ensures IsHeap(s, key)
  {
  }

  /** Inserts behind the elements that are not larger. */
  function Insert<T>(s: seq<T>, x: T, key: T -> int): seq<T> {
    if s == [] || key(x) < key(s[0]) then [x] + s else [s[0]] + Insert(s[1..], x, key)
  }

  function Sort<T>(s: seq<T>, key: T -> int): seq<T> {
    if s == [] then [] else Insert(Sort(s[1..], key), s[0], key)
  }

  lemma {:induction false} InsertAdds<T>(s: seq<T>, x: T, key: T -> int)
    ensures multiset(Insert(s, x, key)) == multiset(s) + multiset{x}
  {
    if s != [] && key(x) >= key(s[0]) {
      InsertAdds(s[1..], x, key);
      assert s == [s[0]] + s[1..];
    }
  }

  lemma {:induction false} InsertSorts<T>(s: seq<T>, x: T, key: T -> int)
    requires IsSorted(s, key)
    ensures IsSorted(Insert(s, x, key), key)
  {
    if s != [] && key(x) >= key(s[0]) {
      InsertSorts(s[1..], x, key);
      InsertAdds(s[1..], x, key);
      var rest := Insert(s[1..], x, key);
      forall j | 0 <= j < |rest| ensures key(s[0]) <= key(rest[j]) {
        assert rest[j] in multiset(rest);
        assert rest[j] == x || rest[j] in s[1..];
      }
    }
  }

  lemma {:induction false} SortSorts<T>(s: seq<T>, key: T -> int)
    ensures IsSorted(Sort(s, key), key) && multiset(Sort(s, key)) == multiset(s)
  {
    if s != [] {
      SortSorts(s[1..], key);
      InsertSorts(Sort(s[1..], key), s[0], key);
      InsertAdds(Sort(s[1..], key), s[0], key);
      assert s == [s[0]] + s[1..];
    }
  }

  /** heap.Init. */
  method Init<T>(s: seq<T>, key: T -> int) returns (h: seq<T>)
    ensures IsHeap(h, key) && multiset(h) == multiset(s)
  {
    h := Sort(s, key);
    SortSorts(s, key);
    SortedIsHeap(h, key);
  }

  /** heap.Push. */
  method Push<T>(h: seq<T>, x: T, key: T -> int) returns (h': seq<T>)
    ensures IsHeap(h', key) && multiset(h') == multiset(h) + multiset{x}
  {
    h' := Init(h + [x], key);
  }

  /** heap.Remove. */
  method Remove<T>(h: seq<T>, i: nat, key: T -> int) returns (h': seq<T>)
    requires i < |h|
    ensures IsHeap(h', key) && multiset(h') + multiset{h[i]} == multiset(h)
  {
    assert h == h[..i] + [h[i]] + h[i+1..];
    h' := Init(h[..i] + h[i+1..], key);
  }

  /** heap.Pop. */
  method Pop<T>(h: seq<T>, key: T -> int) returns (x: T, h': seq<T>)
    requires IsHeap(h, key) && h != []
    ensures x == h[0] && forall y :: y in h ==> key(x) <= key(y)
    ensures IsHeap(h', key) && multiset(h') + multiset{x} == multiset(h)
  {
    x := h[0];
    forall y | y in h ensures key(x) <= key(y) {
      var i :| 0 <= i < |h| && h[i] == y;
      RootIsLeast(h, key, i);
    }
    h' := Remove(h, 0, key);
  }
}
