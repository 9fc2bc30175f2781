/** The lexicographic order of byte sequences. */
module ByteOrder {

  /** bytes.Compare(a, b) < 0. */
  predicate Lt(a: seq<int>, b: seq<int>) {
    if b == [] then false
    else if a == [] then true
    else a[0] < b[0] || (a[0] == b[0] && Lt(a[1..], b[1..]))
  }

  lemma {:induction false} LtPrefix(p: seq<int>, a: seq<int>, b: seq<int>)
    ensures Lt(p + a, p + b) <==> Lt(a, b)
  {
    if p == [] {
      assert p + a == a && p + b == b;
    } else {
      assert (p + a)[1..] == p[1..] + a && (p + b)[1..] == p[1..] + b;
      LtPrefix(p[1..], a, b);
    }
  }

  lemma {:induction false} LtTransitive(a: seq<int>, b: seq<int>, c: seq<int>)
    requires Lt(a, b) && Lt(b, c)
    ensures Lt(a, c)
  {
    if a != [] && a[0] == b[0] == c[0] {
      LtTransitive(a[1..], b[1..], c[1..]);
    }
  }

  lemma {:induction false} LtTotal(a: seq<int>, b: seq<int>)
    ensures a == b || Lt(a, b) || Lt(b, a)
    ensures !(Lt(a, b) && Lt(b, a)) && (a == b ==> !Lt(a, b))
  {
    if a != [] && b != [] && a[0] == b[0] {
      LtTotal(a[1..], b[1..]);
      assert a == [a[0]] + a[1..] && b == [b[0]] + b[1..];
    }
  }

  lemma ExtensionIsGreater(p: seq<int>, a: seq<int>)
    requires a != []
    ensures Lt(p, p + a)
  {
    LtPrefix(p, [], a);
    assert p + [] == p;
  }

  /** What is below a path that is smaller than the key, but not a prefix of it,
      is smaller than the key as well. */
  lemma {:induction false} BelowSmaller(p: seq<int>, a: seq<int>, key: seq<int>)
    requires Lt(p, key) && !(p <= key)
    ensures Lt(p + a, key)
  {
    assert p != [];
    assert (p + a)[0] == p[0] && (p + a)[1..] == p[1..] + a;
    if p[0] == key[0] {
      assert p == [p[0]] + p[1..] && key == [key[0]] + key[1..];
      assert !(p[1..] <= key[1..]);
      BelowSmaller(p[1..], a, key[1..]);
    }
  }
}
