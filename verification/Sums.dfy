/** Sums of an integer-valued function over a finite set, independent of order. */
module Sums {

  ghost function Pick<T>(s: set<T>): (x: T)
    requires s != {}
    ensures x in s
  {
    var x :| x in s; x
  }

  ghost function Sum<T>(s: set<T>, f: T -> int): int
  {
    if s == {} then 0 else var x := Pick(s); f(x) + Sum(s - {x}, f)
  }

  /** Any element can be split off first. */
  lemma {:induction false} SumSplit<T>(s: set<T>, f: T -> int, x: T)
    requires x in s
    ensures Sum(s, f) == f(x) + Sum(s - {x}, f)
    decreases |s|
  {
    var y := Pick(s);
    if y != x {
      SumSplit(s - {y}, f, x);
      SumSplit(s - {x}, f, y);
      assert s - {y} - {x} == s - {x} - {y};
    }
  }

  /** The sum depends only on the values of the function on the set. */
  lemma {:induction false} SumCongruence<T>(s: set<T>, f: T -> int, g: T -> int)
    requires forall x :: x in s ==> f(x) == g(x)
    ensures Sum(s, f) == Sum(s, g)
    decreases |s|
  {
    if s != {} {
      SumCongruence(s - {Pick(s)}, f, g);
    }
  }

  /** Leaving out terms that are not negative does not increase the sum. */
  lemma {:induction false} SumSubset<T>(s: set<T>, t: set<T>, f: T -> int)
    requires s <= t && forall x :: x in t ==> f(x) >= 0
    ensures 0 <= Sum(s, f) <= Sum(t, f)
    decreases |t|
  {
    if t != {} {
      var x := Pick(t);
      if x in s {
        SumSplit(s, f, x);
        SumSubset(s - {x}, t - {x}, f);
      } else {
        SumSubset(s, t - {x}, f);
      }
    }
  }
}
