/** Sequence, set and multiset facts shared by the other modules. */
module Collections {

  /** The concatenation, in order, of a sequence of sequences. */
  function Flatten<T>(xs: seq<seq<T>>): seq<T>
  {
    if |xs| == 0 then [] else Flatten(xs[..|xs| - 1]) + xs[|xs| - 1]
  }

  lemma {:induction false} FlattenConcat<T>(xs: seq<seq<T>>, ys: seq<seq<T>>)
    ensures Flatten(xs + ys) == Flatten(xs) + Flatten(ys)
  {
    if |ys| == 0 {
      assert xs + ys == xs;
    } else {
      FlattenConcat(xs, ys[..|ys| - 1]);
      assert (xs + ys)[..|xs + ys| - 1] == xs + ys[..|ys| - 1];
    }
  }

  /** Flattening after replacing the k-th sequence swaps that sequence's elements. */
  lemma FlattenUpdate<T>(xs: seq<seq<T>>, k: nat, y: seq<T>)
    requires k < |xs|
    ensures multiset(Flatten(xs[k := y])) + multiset(xs[k]) == multiset(Flatten(xs)) + multiset(y)
  {
    assert xs == xs[..k] + [xs[k]] + xs[k + 1..];
    assert xs[k := y] == xs[..k] + [y] + xs[k + 1..];
    FlattenConcat(xs[..k] + [xs[k]], xs[k + 1..]);
    FlattenConcat(xs[..k], [xs[k]]);
    FlattenConcat(xs[..k] + [y], xs[k + 1..]);
    FlattenConcat(xs[..k], [y]);
    assert Flatten([xs[k]]) == xs[k] by { assert [xs[k]][..0] == []; }
    assert Flatten([y]) == y by { assert [y][..0] == []; }
  }

  /** How many times p occurs over all the sequences of xs. */
  function Occ<T(==)>(xs: seq<seq<T>>, p: T): nat
  {
    multiset(Flatten(xs))[p]
  }

  /** No element of s occurs twice. */
  predicate NoDup<T(==)>(s: seq<T>)
  {
    forall i, j :: 0 <= i < j < |s| ==> s[i] != s[j]
  }

  /** How many times x occurs in s. */
  function Multiplicity<T(==)>(s: seq<T>, x: T): nat
  {
    multiset(s)[x]
  }

  lemma MultiplicityCons<T>(x: T, s: seq<T>, p: T)
    ensures Multiplicity([x] + s, p) == Multiplicity(s, p) + if p == x then 1 else 0
  {
    assert multiset([x] + s) == multiset{x} + multiset(s);
  }

  lemma MultiplicitySnoc<T>(s: seq<T>, x: T, p: T)
    ensures Multiplicity(s + [x], p) == Multiplicity(s, p) + if p == x then 1 else 0
  {
    assert multiset(s + [x]) == multiset(s) + multiset{x};
  }

  /** Overwrite position j with the last element, then drop the last position:
      the constant-time removal of an unordered list. */
  function SwapPop<T>(s: seq<T>, j: nat): (r: seq<T>)
    requires j < |s|
    ensures |r| == |s| - 1
    ensures forall m :: 0 <= m < |r| && m != j ==> r[m] == s[m]
    ensures j < |r| ==> r[j] == s[|s| - 1]
  {
    s[j := s[|s| - 1]][..|s| - 1]
  }

  lemma SwapPopMultiset<T>(s: seq<T>, j: nat)
    requires j < |s|
    ensures multiset(SwapPop(s, j)) == multiset(s) - multiset{s[j]}
  {
    var n := |s| - 1;
    assert s == s[..n] + [s[n]];
    if j < n {
      assert SwapPop(s, j) == s[..n][j := s[n]];
    } else {
      assert SwapPop(s, j) == s[..n];
    }
  }

  /** f applied to every element of s. */
  function Map<T, U>(s: seq<T>, f: T -> U): (r: seq<U>)
    ensures |r| == |s|
    ensures forall i :: 0 <= i < |s| ==> r[i] == f(s[i])
  {
    seq(|s|, i requires 0 <= i < |s| => f(s[i]))
  }

  lemma MapConcat<T, U>(a: seq<T>, b: seq<T>, f: T -> U)
    ensures Map(a + b, f) == Map(a, f) + Map(b, f)
  {
  }

  /** n copies of x. */
  function Repeat<T>(x: T, n: nat): (r: seq<T>)
    ensures |r| == n
    ensures forall i :: 0 <= i < n ==> r[i] == x
  {
    if n == 0 then [] else Repeat(x, n - 1) + [x]
  }

  /** x repeated once more, the new copy in front. */
  lemma RepeatCons<T>(x: T, n: nat)
    ensures [x] + Repeat(x, n) == Repeat(x, n + 1)
  {
    assert forall i :: 0 <= i < n + 1 ==> ([x] + Repeat(x, n))[i] == x;
  }

  lemma ConcatAssoc<T>(a: seq<T>, b: seq<T>, c: seq<T>)
    ensures a + b + c == a + (b + c)
  {
  }

  /** The integers 0 .. n-1. */
  function Range(n: nat): (r: set<int>)
    ensures forall x :: x in r <==> 0 <= x < n
    ensures |r| == n
  {
    if n == 0 then {} else Range(n - 1) + {n - 1}
  }

  lemma SubsetSize<T>(a: set<T>, b: set<T>)
    requires a <= b
    ensures |a| <= |b|
  {
    if a != {} {
      var x :| x in a;
      SubsetSize(a - {x}, b - {x});
    }
  }

  /** A set of integers closed downwards to 0 is exactly 0 .. |s|-1. */
  lemma DownClosedIsRange(s: set<int>)
    requires forall x :: x in s ==> 0 <= x && forall y :: 0 <= y < x ==> y in s
    ensures forall x :: x in s <==> 0 <= x < |s|
  {
    forall x | x in s
      ensures x < |s|
    {
      SubsetSize(Range(x + 1), s);
    }
    forall x | 0 <= x < |s|
      ensures x in s
    {
      if x !in s {
        forall y | y in s
          ensures y in Range(x)
        {
          assert y >= x ==> x in s;
        }
        SubsetSize(s, Range(x));
      }
    }
  }
}
