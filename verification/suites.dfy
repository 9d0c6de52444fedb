/** `suites` of madcad/hashing.py: rebuild ordered point chains from an
    unordered list of edges, optionally cutting them where chains cross.
    Edges are modelled as pairs of point indices. */
module Suites {
  import opened Collections
  import opened Failures
  import Connectivity

  type Edge = Connectivity.Edge

  /** The consecutive pairs of a suite: the edges it runs through, in its own direction. */
  function Pairs(s: seq<int>): (r: seq<Edge>)
    ensures |r| == if |s| < 2 then 0 else |s| - 1
    ensures forall k :: 0 <= k < |r| ==> r[k] == (s[k], s[k + 1])
  {
    if |s| < 2 then [] else seq(|s| - 1, k requires 0 <= k < |s| - 1 => (s[k], s[k + 1]))
  }

  /** The consecutive pairs of every suite, suite after suite. */
  function AllPairs(suites: seq<seq<int>>): seq<Edge>
  {
    Flatten(Map(suites, Pairs))
  }

  /** How an edge is compared: as given when orientation matters, up to direction otherwise. */
  function Norm(oriented: bool, e: Edge): Edge
  {
    if oriented then e else Connectivity.EdgeKey(e.0, e.1)
  }

  /** The multiset of edges, compared as `oriented` says. */
  ghost function Bag(es: seq<Edge>, oriented: bool): multiset<Edge>
  {
    if |es| == 0 then multiset{} else Bag(es[..|es| - 1], oriented) + multiset{Norm(oriented, es[|es| - 1])}
  }

  lemma {:induction false} BagConcat(a: seq<Edge>, b: seq<Edge>, oriented: bool)
    ensures Bag(a + b, oriented) == Bag(a, oriented) + Bag(b, oriented)
    decreases |b|
  {
    if |b| == 0 {
      assert a + b == a;
    } else {
      BagConcat(a, b[..|b| - 1], oriented);
      assert (a + b)[..|a + b| - 1] == a + b[..|b| - 1];
    }
  }

  lemma {:induction false} BagSize(es: seq<Edge>, oriented: bool)
    ensures |Bag(es, oriented)| == |es|
  {
    if |es| > 0 {
      BagSize(es[..|es| - 1], oriented);
    }
  }

  lemma {:induction false} BagOriented(es: seq<Edge>)
    ensures Bag(es, true) == multiset(es)
  {
    if |es| > 0 {
      BagOriented(es[..|es| - 1]);
      assert es == es[..|es| - 1] + [es[|es| - 1]];
    }
  }

  lemma BagSingle(e: Edge, oriented: bool)
    ensures Bag([e], oriented) == multiset{Norm(oriented, e)}
  {
    assert [e][..0] == [];
  }

  /** Reordering the edges does not change their bag. */
  lemma {:induction false} BagPermutation(a: seq<Edge>, b: seq<Edge>, oriented: bool)
    requires multiset(a) == multiset(b)
    ensures Bag(a, oriented) == Bag(b, oriented)
    decreases |a|
  {
    if |a| == 0 {
      assert |multiset(b)| == 0;
      assert b == [];
    } else {
      var x := a[|a| - 1];
      var a' := a[..|a| - 1];
      assert a == a' + [x];
      assert x in multiset(b);
      var j :| 0 <= j < |b| && b[j] == x;
      var b' := b[..j] + b[j + 1..];
      BagRemove(b, j, oriented);
      RemoveMatching(a', x, b, j);
      BagPermutation(a', b', oriented);
    }
  }

  /** Taking the same element out of two permutations leaves two permutations. */
  lemma RemoveMatching(a': seq<Edge>, x: Edge, b: seq<Edge>, j: nat)
    requires j < |b| && b[j] == x
    requires multiset(a' + [x]) == multiset(b)
    ensures multiset(a') == multiset(b[..j] + b[j + 1..])
  {
    assert multiset(b) == multiset(b[..j]) + multiset{x} + multiset(b[j + 1..]) by {
      assert b == b[..j] + [x] + b[j + 1..];
    }
    var b' := b[..j] + b[j + 1..];
    assert multiset(b') == multiset(b[..j]) + multiset(b[j + 1..]);
    forall z
      ensures multiset(a')[z] == multiset(b')[z]
    {
      assert multiset(a' + [x])[z] == multiset(b)[z];
    }
  }

  lemma BagRemove(es: seq<Edge>, i: nat, oriented: bool)
    requires i < |es|
    ensures Bag(es, oriented) == Bag(es[..i] + es[i + 1..], oriented) + multiset{Norm(oriented, es[i])}
    ensures multiset(es[..i] + es[i + 1..]) <= multiset(es)
  {
    assert es == es[..i] + [es[i]] + es[i + 1..];
    BagConcat(es[..i] + [es[i]], es[i + 1..], oriented);
    BagConcat(es[..i], [es[i]], oriented);
    BagConcat(es[..i], es[i + 1..], oriented);
    BagSingle(es[i], oriented);
  }

  lemma PairsCons(x: int, s: seq<int>)
    requires |s| >= 1
    ensures Pairs([x] + s) == [(x, s[0])] + Pairs(s)
  {
  }

  lemma PairsSnoc(s: seq<int>, y: int)
    requires |s| >= 1
    ensures Pairs(s + [y]) == Pairs(s) + [(s[|s| - 1], y)]
  {
  }

  /** Cutting a suite at an interior index shares the cut point and keeps every pair. */
  lemma PairsSplit(s: seq<int>, i: nat)
    requires i < |s|
    ensures Pairs(s[..i + 1]) + Pairs(s[i..]) == Pairs(s)
  {
  }

  lemma AllPairsSnoc(suites: seq<seq<int>>, s: seq<int>)
    ensures AllPairs(suites + [s]) == AllPairs(suites) + Pairs(s)
  {
    MapConcat(suites, [s], Pairs);
    FlattenConcat(Map(suites, Pairs), [Pairs(s)]);
    assert Flatten([Pairs(s)]) == Pairs(s) by { assert [Pairs(s)][..0] == []; }
  }

  lemma PrependPair(x: int, suite: seq<int>, oriented: bool)
    requires |suite| >= 1
    ensures Bag(Pairs([x] + suite), oriented) == Bag(Pairs(suite), oriented) + multiset{Norm(oriented, (x, suite[0]))}
  {
    PairsCons(x, suite);
    BagConcat([(x, suite[0])], Pairs(suite), oriented);
    BagSingle((x, suite[0]), oriented);
  }

  lemma AppendPair(suite: seq<int>, y: int, oriented: bool)
    requires |suite| >= 1
    ensures Bag(Pairs(suite + [y]), oriented) == Bag(Pairs(suite), oriented) + multiset{Norm(oriented, (suite[|suite| - 1], y))}
  {
    PairsSnoc(suite, y);
    BagConcat(Pairs(suite), [(suite[|suite| - 1], y)], oriented);
    BagSingle((suite[|suite| - 1], y), oriented);
  }

  /** One step of the scan: the suite extended by edge e when e attaches to one of its ends. */
  function Attach(suite: seq<int>, e: Edge, oriented: bool): (r: Option<seq<int>>)
    requires |suite| >= 1
    ensures r.None? <==> e.1 != suite[0] && e.0 != suite[|suite| - 1]
                          && (oriented || (e.0 != suite[0] && e.1 != suite[|suite| - 1]))
    ensures r.Some? ==> |r.value| == |suite| + 1 && (r.value[1..] == suite || r.value[..|suite|] == suite)
  {
    var first, last := suite[0], suite[|suite| - 1];
    if e.1 == first then Some([e.0] + suite)
    else if e.0 == last then Some(suite + [e.1])
    else if !oriented && e.0 == first then Some([e.1] + suite)
    else if !oriented && e.1 == last then Some(suite + [e.0])
    else None
  }

  /** Attaching an edge adds exactly that edge, reversed only when orientation does not matter. */
  lemma AttachBag(suite: seq<int>, e: Edge, oriented: bool)
    requires |suite| >= 1 && Attach(suite, e, oriented).Some?
    ensures Bag(Pairs(Attach(suite, e, oriented).value), oriented) == Bag(Pairs(suite), oriented) + multiset{Norm(oriented, e)}
  {
    var first, last := suite[0], suite[|suite| - 1];
    if e.1 == first {
      PrependPair(e.0, suite, oriented);
    } else if e.0 == last {
      AppendPair(suite, e.1, oriented);
    } else if e.0 == first {
      PrependPair(e.1, suite, oriented);
      assert Norm(oriented, (e.1, e.0)) == Norm(oriented, e);
    } else {
      AppendPair(suite, e.0, oriented);
      assert Norm(oriented, (e.1, e.0)) == Norm(oriented, e);
    }
  }

  /** The inner scan of `suites`: the first pool edge that attaches to the suite. */
  method Scan(pool: seq<Edge>, suite: seq<int>, oriented: bool) returns (hit: Option<nat>)
    requires |suite| >= 1
    ensures hit.Some? ==> hit.value < |pool| && Attach(suite, pool[hit.value], oriented).Some?
    ensures hit.Some? ==> forall j :: 0 <= j < hit.value ==> Attach(suite, pool[j], oriented).None?
    ensures hit.None? ==> forall e :: e in pool ==> Attach(suite, e, oriented).None?
  {
    for i := 0 to |pool|
      invariant forall j :: 0 <= j < i ==> Attach(suite, pool[j], oriented).None?
    {
      if Attach(suite, pool[i], oriented).Some? {
        return Some(i);
      }
    }
    return None;
  }

  /** Edge i of the pool is the first that attaches to the suite. */
  predicate FirstAttaching(suite: seq<int>, pool: seq<Edge>, oriented: bool, i: int)
    requires |suite| >= 1
  {
    0 <= i < |pool| && Attach(suite, pool[i], oriented).Some?
    && forall j :: 0 <= j < i ==> Attach(suite, pool[j], oriented).None?
  }

  /** Moving an attaching edge from the pool into the suite keeps the edges together. */
  lemma TakeBag(suite: seq<int>, pool: seq<Edge>, i: nat, oriented: bool)
    requires |suite| >= 1 && i < |pool| && Attach(suite, pool[i], oriented).Some?
    ensures Bag(Pairs(Attach(suite, pool[i], oriented).value), oriented) + Bag(pool[..i] + pool[i + 1..], oriented)
         == Bag(Pairs(suite), oriented) + Bag(pool, oriented)
    ensures multiset(pool[..i] + pool[i + 1..]) <= multiset(pool)
  {
    BagRemove(pool, i, oriented);
    AttachBag(suite, pool[i], oriented);
  }

  /** One pass of the scan: attach the first pool edge that fits, if any, and take it out of the pool. */
  method Extend(suite: seq<int>, pool: seq<Edge>, oriented: bool) returns (found: bool, suite': seq<int>, pool': seq<Edge>)
    requires |suite| >= 2
    ensures |suite'| >= 2
    ensures found ==> |pool'| == |pool| - 1
    ensures !found ==> pool' == pool && suite' == suite
    ensures multiset(pool') <= multiset(pool)
    ensures Bag(Pairs(suite'), oriented) + Bag(pool', oriented) == Bag(Pairs(suite), oriented) + Bag(pool, oriented)
    ensures !found ==> forall e :: e in pool ==> Attach(suite, e, oriented).None?
    ensures found ==> exists i :: FirstAttaching(suite, pool, oriented, i)
                                  && suite' == Attach(suite, pool[i], oriented).value
                                  && pool' == pool[..i] + pool[i + 1..]
  {
    var hit := Scan(pool, suite, oriented);
    if hit.None? {
      return false, suite, pool;
    }
    var i := hit.value;
    TakeBag(suite, pool, i, oriented);
    found, suite', pool' := true, Attach(suite, pool[i], oriented).value, pool[..i] + pool[i + 1..];
    assert FirstAttaching(suite, pool, oriented, i);
  }

  /** Grow one suite: start from the last edge of the pool, then repeatedly take
      the first pool edge that attaches to one of the suite's ends, until none
      does or, when `loop` is set, the suite has closed on itself. */
  method Grow(pool: seq<Edge>, oriented: bool, loop: bool) returns (suite: seq<int>, rest: seq<Edge>)
    requires |pool| > 0
    ensures |suite| >= 2
    ensures |rest| < |pool|
    ensures multiset(rest) <= multiset(pool)
    ensures Bag(Pairs(suite), oriented) + Bag(rest, oriented) == Bag(pool, oriented)
    ensures (loop && suite[0] == suite[|suite| - 1]) || forall e :: e in rest ==> Attach(suite, e, oriented).None?
  {
    var start := pool[|pool| - 1];
    suite := [start.0, start.1];
    rest := pool[..|pool| - 1];
    BagRemove(pool, |pool| - 1, oriented);
    assert pool[..|pool| - 1] + pool[|pool|..] == rest;
    BagSingle(start, oriented);
    assert Pairs(suite) == [start];
    var found := true;
    while found
      invariant |suite| >= 2
      invariant |rest| < |pool|
      invariant multiset(rest) <= multiset(pool)
      invariant Bag(Pairs(suite), oriented) + Bag(rest, oriented) == Bag(pool, oriented)
      invariant !found ==> forall e :: e in rest ==> Attach(suite, e, oriented).None?
      decreases |rest| + (if found then 1 else 0)
    {
      found, suite, rest := Extend(suite, rest, oriented);
      if loop && suite[|suite| - 1] == suite[0] {
        break;
      }
    }
  }

  lemma AllPairsConcat(a: seq<seq<int>>, b: seq<seq<int>>)
    ensures AllPairs(a + b) == AllPairs(a) + AllPairs(b)
  {
    MapConcat(a, b, Pairs);
    FlattenConcat(Map(a, Pairs), Map(b, Pairs));
  }

  /** Whether an edge attaches depends only on how it compares: reversing it changes nothing when orientation does not matter. */
  lemma AttachNorm(suite: seq<int>, e: Edge, oriented: bool)
    requires |suite| >= 1
    ensures Attach(suite, Norm(oriented, e), oriented).None? == Attach(suite, e, oriented).None?
  {
  }

  /** No edge of the bag attaches to an end of the suite. */
  ghost predicate Stuck(suite: seq<int>, b: multiset<Edge>, oriented: bool)
  {
    |suite| >= 1 && forall x :: x in b ==> Attach(suite, x, oriented).None?
  }

  /** No edge of a list attaches exactly when none of its bag does. */
  lemma {:induction false} StuckBag(suite: seq<int>, es: seq<Edge>, oriented: bool)
    requires |suite| >= 1
    ensures Stuck(suite, Bag(es, oriented), oriented) <==> forall e :: e in es ==> Attach(suite, e, oriented).None?
  {
    if |es| > 0 {
      var es', last := es[..|es| - 1], es[|es| - 1];
      StuckBag(suite, es', oriented);
      AttachNorm(suite, last, oriented);
      assert es == es' + [last];
      assert forall e :: e in es <==> e in es' || e == last;
    }
  }

  /** Suite j is closed into a loop (when loops are wanted), or no edge of the
      bag `later` attaches to it. */
  ghost predicate Finished(suite: seq<int>, later: multiset<Edge>, oriented: bool, loop: bool)
  {
    |suite| >= 1 && ((loop && suite[0] == suite[|suite| - 1]) || Stuck(suite, later, oriented))
  }

  /** Every suite assembled so far is finished against the edges of `lines` that
      were not yet taken when it was done growing. */
  ghost predicate AllFinished(lines: seq<Edge>, suites: seq<seq<int>>, oriented: bool, loop: bool)
  {
    forall j :: 0 <= j < |suites| ==>
      Finished(suites[j], Bag(lines, oriented) - Bag(AllPairs(suites[..j + 1]), oriented), oriented, loop)
  }

  lemma MultisetCancel(a: multiset<Edge>, b: multiset<Edge>, c: multiset<Edge>)
    requires a + b == c
    ensures c - a == b
  {
    forall z
      ensures (c - a)[z] == b[z]
    {
      assert c[z] == a[z] + b[z];
    }
  }

  /** A suite finished before another is appended stays finished. */
  lemma FinishedKept(lines: seq<Edge>, suites: seq<seq<int>>, s: seq<int>, j: nat, oriented: bool, loop: bool)
    requires j < |suites|
    requires Finished(suites[j], Bag(lines, oriented) - Bag(AllPairs(suites[..j + 1]), oriented), oriented, loop)
    ensures Finished((suites + [s])[j], Bag(lines, oriented) - Bag(AllPairs((suites + [s])[..j + 1]), oriented), oriented, loop)
  {
    assert (suites + [s])[..j + 1] == suites[..j + 1];
    assert (suites + [s])[j] == suites[j];
  }

  /** A suite just grown is finished against the edges left in the pool. */
  lemma FinishedNew(lines: seq<Edge>, suites: seq<seq<int>>, s: seq<int>, rest: seq<Edge>, oriented: bool, loop: bool)
    requires |s| >= 2
    requires Bag(AllPairs(suites + [s]), oriented) + Bag(rest, oriented) == Bag(lines, oriented)
    requires (loop && s[0] == s[|s| - 1]) || forall e :: e in rest ==> Attach(s, e, oriented).None?
    ensures Finished((suites + [s])[|suites|], Bag(lines, oriented) - Bag(AllPairs((suites + [s])[..|suites| + 1]), oriented), oriented, loop)
  {
    assert (suites + [s])[..|suites| + 1] == suites + [s];
    MultisetCancel(Bag(AllPairs(suites + [s]), oriented), Bag(rest, oriented), Bag(lines, oriented));
    StuckBag(s, rest, oriented);
  }

  lemma FinishedStep(lines: seq<Edge>, suites: seq<seq<int>>, s: seq<int>, rest: seq<Edge>, j: nat, oriented: bool, loop: bool)
    requires j <= |suites| && |s| >= 2
    requires Bag(AllPairs(suites + [s]), oriented) + Bag(rest, oriented) == Bag(lines, oriented)
    requires (loop && s[0] == s[|s| - 1]) || forall e :: e in rest ==> Attach(s, e, oriented).None?
    requires j < |suites| ==> Finished(suites[j], Bag(lines, oriented) - Bag(AllPairs(suites[..j + 1]), oriented), oriented, loop)
    ensures Finished((suites + [s])[j], Bag(lines, oriented) - Bag(AllPairs((suites + [s])[..j + 1]), oriented), oriented, loop)
  {
    if j < |suites| {
      FinishedKept(lines, suites, s, j, oriented, loop);
    } else {
      FinishedNew(lines, suites, s, rest, oriented, loop);
    }
  }

  /** Appending a suite grown from the pool keeps the edges of the suites and the pool together. */
  lemma BagStep(lines: seq<Edge>, suites: seq<seq<int>>, pool: seq<Edge>, s: seq<int>, rest: seq<Edge>, oriented: bool)
    requires Bag(AllPairs(suites), oriented) + Bag(pool, oriented) == Bag(lines, oriented)
    requires Bag(Pairs(s), oriented) + Bag(rest, oriented) == Bag(pool, oriented)
    ensures Bag(AllPairs(suites + [s]), oriented) + Bag(rest, oriented) == Bag(lines, oriented)
  {
    AllPairsSnoc(suites, s);
    BagConcat(AllPairs(suites), Pairs(s), oriented);
  }

  /** Once every edge is taken, suite j being finished speaks of the pairs of the later suites. */
  lemma DoneOne(lines: seq<Edge>, suites: seq<seq<int>>, j: nat, oriented: bool, loop: bool)
    requires j < |suites| && |suites[j]| >= 1
    requires Bag(AllPairs(suites), oriented) == Bag(lines, oriented)
    requires Finished(suites[j], Bag(lines, oriented) - Bag(AllPairs(suites[..j + 1]), oriented), oriented, loop)
    ensures (loop && suites[j][0] == suites[j][|suites[j]| - 1])
         || (forall e :: e in AllPairs(suites[j + 1..]) ==> Attach(suites[j], e, oriented).None?)
  {
    assert suites == suites[..j + 1] + suites[j + 1..];
    AllPairsConcat(suites[..j + 1], suites[j + 1..]);
    BagConcat(AllPairs(suites[..j + 1]), AllPairs(suites[j + 1..]), oriented);
    MultisetCancel(Bag(AllPairs(suites[..j + 1]), oriented), Bag(AllPairs(suites[j + 1..]), oriented), Bag(lines, oriented));
    StuckBag(suites[j], AllPairs(suites[j + 1..]), oriented);
  }

  /** The first phase of `suites`: grow suites until no edge is left. Each suite
      is grown until it closes into a loop (when loops are wanted) or no edge of
      the suites assembled after it attaches to either of its ends. */
  method Assemble(lines: seq<Edge>, oriented: bool, loop: bool) returns (suites: seq<seq<int>>)
    ensures forall s :: s in suites ==> |s| >= 2
    ensures Bag(AllPairs(suites), oriented) == Bag(lines, oriented)
    ensures forall j :: 0 <= j < |suites| ==>
      (loop && suites[j][0] == suites[j][|suites[j]| - 1])
      || (forall e :: e in AllPairs(suites[j + 1..]) ==> Attach(suites[j], e, oriented).None?)
  {
    var pool := lines;
    suites := [];
    assert Bag(AllPairs(suites), oriented) == multiset{};
    while |pool| > 0
      invariant forall s :: s in suites ==> |s| >= 2
      invariant Bag(AllPairs(suites), oriented) + Bag(pool, oriented) == Bag(lines, oriented)
      invariant AllFinished(lines, suites, oriented, loop)
      decreases |pool|
    {
      var suite, rest := Grow(pool, oriented, loop);
      BagStep(lines, suites, pool, suite, rest, oriented);
      forall j | 0 <= j < |suites| + 1
        ensures Finished((suites + [suite])[j], Bag(lines, oriented) - Bag(AllPairs((suites + [suite])[..j + 1]), oriented), oriented, loop)
      {
        FinishedStep(lines, suites, suite, rest, j, oriented, loop);
      }
      suites, pool := suites + [suite], rest;
    }
    forall j | 0 <= j < |suites|
      ensures (loop && suites[j][0] == suites[j][|suites[j]| - 1])
           || (forall e :: e in AllPairs(suites[j + 1..]) ==> Attach(suites[j], e, oriented).None?)
    {
      DoneOne(lines, suites, j, oriented, loop);
    }
  }

  /** The first interior position of s whose point has reach above 1, if any. */
  method FindCut(s: seq<int>, reach: map<int, nat>) returns (cut: Option<nat>)
    requires forall m :: 0 < m < |s| - 1 ==> s[m] in reach
    ensures cut.Some? ==> 0 < cut.value < |s| - 1 && reach[s[cut.value]] > 1
    ensures cut.Some? ==> forall m :: 0 < m < cut.value ==> reach[s[m]] <= 1
    ensures cut.None? ==> forall m :: 0 < m < |s| - 1 ==> reach[s[m]] <= 1
  {
    var i := 1;
    while i < |s| - 1
      invariant 1 <= i
      invariant forall m :: 0 < m < i && m < |s| - 1 ==> reach[s[m]] <= 1
    {
      if reach[s[i]] > 1 {
        return Some(i);
      }
      i := i + 1;
    }
    return None;
  }

  lemma OccursInFlatten(xs: seq<seq<int>>, k: nat, i: nat)
    requires k < |xs| && i < |xs[k]|
    ensures Occ(xs, xs[k][i]) >= 1
  {
    assert xs == xs[..k] + [xs[k]] + xs[k + 1..];
    FlattenConcat(xs[..k] + [xs[k]], xs[k + 1..]);
    FlattenConcat(xs[..k], [xs[k]]);
    assert Flatten([xs[k]]) == xs[k] by { assert [xs[k]][..0] == []; }
    assert xs[k][i] in multiset(xs[k]);
  }

  /** Replacing suite k by its two halves around position i: the cut point appears once more. */
  lemma CutPoints(out: seq<seq<int>>, k: nat, i: nat)
    requires k < |out| && 0 < i < |out[k]| - 1
    ensures multiset(Flatten(out[k := out[k][..i + 1]] + [out[k][i..]])) == multiset(Flatten(out)) + multiset{out[k][i]}
  {
    var s := out[k];
    var out1 := out[k := s[..i + 1]];
    FlattenUpdate(out, k, s[..i + 1]);
    FlattenConcat(out1, [s[i..]]);
    assert Flatten([s[i..]]) == s[i..] by { assert [s[i..]][..0] == []; }
    assert s == s[..i] + [s[i]] + s[i + 1..];
    assert s[..i + 1] == s[..i] + [s[i]];
    assert s[i..] == [s[i]] + s[i + 1..];
    var m1, m2, m := multiset(Flatten(out1)), multiset(Flatten(out1 + [s[i..]])), multiset(Flatten(out));
    assert m1 + multiset(s) == m + multiset(s[..i + 1]);
    assert m2 == m1 + multiset(s[i..]);
    forall z
      ensures m2[z] == (m + multiset{s[i]})[z]
    {
      assert (m1 + multiset(s))[z] == (m + multiset(s[..i + 1]))[z];
    }
    assert m2 == m + multiset{s[i]};
  }

  /** Cutting at a point that occurs more than once leaves the count of every rarer point alone. */
  lemma CutOccurrences(out: seq<seq<int>>, k: nat, i: nat, suites: seq<seq<int>>)
    requires k < |out| && 0 < i < |out[k]| - 1
    requires Occ(suites, out[k][i]) > 1
    requires forall p :: Occ(suites, p) <= 1 ==> Occ(out, p) == Occ(suites, p)
    ensures forall p :: Occ(suites, p) <= 1 ==> Occ(out[k := out[k][..i + 1]] + [out[k][i..]], p) == Occ(suites, p)
  {
    CutPoints(out, k, i);
  }

  /** Replacing suite k by its two halves around position i keeps every pair. */
  lemma CutPairs(out: seq<seq<int>>, k: nat, i: nat)
    requires k < |out| && 0 < i < |out[k]| - 1
    ensures multiset(AllPairs(out[k := out[k][..i + 1]] + [out[k][i..]])) == multiset(AllPairs(out))
  {
    var s := out[k];
    var out' := out[k := s[..i + 1]] + [s[i..]];
    var ps := Map(out, Pairs);
    assert Map(out', Pairs) == ps[k := Pairs(s[..i + 1])] + [Pairs(s[i..])];
    FlattenUpdate(ps, k, Pairs(s[..i + 1]));
    FlattenConcat(ps[k := Pairs(s[..i + 1])], [Pairs(s[i..])]);
    assert Flatten([Pairs(s[i..])]) == Pairs(s[i..]) by { assert [Pairs(s[i..])][..0] == []; }
    PairsSplit(s, i);
    var m1, m2, m := multiset(Flatten(ps[k := Pairs(s[..i + 1])])), multiset(AllPairs(out')), multiset(AllPairs(out));
    assert m1 + multiset(Pairs(s)) == m + multiset(Pairs(s[..i + 1]));
    assert m2 == m1 + multiset(Pairs(s[i..]));
    assert multiset(Pairs(s[..i + 1])) + multiset(Pairs(s[i..])) == multiset(Pairs(s));
    forall z
      ensures m2[z] == m[z]
    {
      assert (m1 + multiset(Pairs(s)))[z] == (m + multiset(Pairs(s[..i + 1])))[z];
    }
    assert m2 == m;
  }

  /** Replacing suite k by its two halves around position i leaves less to scan after k. */
  lemma CutMeasure(out: seq<seq<int>>, k: nat, i: nat)
    requires k < |out| && 0 < i < |out[k]| - 1
    ensures |Flatten((out[k := out[k][..i + 1]] + [out[k][i..]])[k + 1..])| + i == |Flatten(out[k..])|
  {
    var s := out[k];
    var out' := out[k := s[..i + 1]] + [s[i..]];
    assert out'[k + 1..] == out[k + 1..] + [s[i..]];
    FlattenConcat(out[k + 1..], [s[i..]]);
    assert Flatten([s[i..]]) == s[i..] by { assert [s[i..]][..0] == []; }
    assert out[k..] == [s] + out[k + 1..];
    FlattenConcat([s], out[k + 1..]);
    assert Flatten([s]) == s by { assert [s][..0] == []; }
  }

  lemma SkipStep(out: seq<seq<int>>, k: nat)
    requires k < |out|
    ensures |Flatten(out[k + 1..])| <= |Flatten(out[k..])|
  {
    assert out[k..] == [out[k]] + out[k + 1..];
    FlattenConcat([out[k]], out[k + 1..]);
  }

  /** Every interior point of suite k has a reach, and that reach is its count over the suites. */
  lemma InteriorReached(out: seq<seq<int>>, k: nat, reach: map<int, nat>, suites: seq<seq<int>>)
    requires k < |out|
    requires forall p :: p in reach <==> Occ(suites, p) > 0
    requires forall p :: p in reach ==> reach[p] == Occ(suites, p)
    requires forall p :: Occ(suites, p) <= 1 ==> Occ(out, p) == Occ(suites, p)
    ensures forall m :: 0 < m < |out[k]| - 1 ==> out[k][m] in reach && reach[out[k][m]] == Occ(suites, out[k][m])
  {
    forall m | 0 < m < |out[k]| - 1
      ensures out[k][m] in reach && reach[out[k][m]] == Occ(suites, out[k][m])
    {
      OccursInFlatten(out, k, m);
      assert Occ(suites, out[k][m]) <= 1 ==> Occ(out, out[k][m]) == Occ(suites, out[k][m]);
    }
  }

  /** Cutting suite k at i, its first interior point of reach above 1. */
  lemma CutAt(out: seq<seq<int>>, k: nat, i: nat, reach: map<int, nat>, suites: seq<seq<int>>)
    requires k < |out| && 0 < i < |out[k]| - 1
    requires forall m :: 0 < m < |out[k]| - 1 ==> out[k][m] in reach && reach[out[k][m]] == Occ(suites, out[k][m])
    requires reach[out[k][i]] > 1 && forall m :: 0 < m < i ==> reach[out[k][m]] <= 1
    requires forall p :: Occ(suites, p) <= 1 ==> Occ(out, p) == Occ(suites, p)
    ensures var out' := out[k := out[k][..i + 1]] + [out[k][i..]];
      && (forall i :: 0 < i < |out'[k]| - 1 ==> Occ(suites, out'[k][i]) <= 1)
      && (forall p :: Occ(suites, p) <= 1 ==> Occ(out', p) == Occ(suites, p))
      && multiset(AllPairs(out')) == multiset(AllPairs(out))
      && |Flatten(out'[k + 1..])| + i == |Flatten(out[k..])|
      && |out'| == |out| + 1 && (forall j :: 0 <= j < k ==> out'[j] == out[j])
      && ((forall s :: s in out ==> |s| >= 2) ==> forall s :: s in out' ==> |s| >= 2)
  {
    var s := out[k];
    CutOccurrences(out, k, i, suites);
    CutPairs(out, k, i);
    CutMeasure(out, k, i);
    var out' := out[k := s[..i + 1]] + [s[i..]];
    forall m | 0 < m < |out'[k]| - 1
      ensures Occ(suites, out'[k][m]) <= 1
    {
      assert out'[k][m] == s[m] && reach[s[m]] <= 1;
    }
    if forall t :: t in out ==> |t| >= 2 {
      forall t | t in out'
        ensures |t| >= 2
      {
        var j :| 0 <= j < |out'| && out'[j] == t;
        if j < |out| && j != k {
          assert t in out;
        }
      }
    }
  }

  /** The cutting step of `suites` for suite k: cut it at its first interior
      point whose reach exceeds 1 and append the part from that point onwards. */
  method CutSuite(out: seq<seq<int>>, k: nat, reach: map<int, nat>, ghost suites: seq<seq<int>>)
    returns (out': seq<seq<int>>)
    requires k < |out|
    requires forall p :: p in reach <==> Occ(suites, p) > 0
    requires forall p :: p in reach ==> reach[p] == Occ(suites, p)
    requires forall p :: Occ(suites, p) <= 1 ==> Occ(out, p) == Occ(suites, p)
    ensures |out'| >= |out| && forall j :: 0 <= j < k ==> out'[j] == out[j]
    ensures forall i :: 0 < i < |out'[k]| - 1 ==> Occ(suites, out'[k][i]) <= 1
    ensures forall p :: Occ(suites, p) <= 1 ==> Occ(out', p) == Occ(suites, p)
    ensures multiset(AllPairs(out')) == multiset(AllPairs(out))
    ensures (forall s :: s in out ==> |s| >= 2) ==> forall s :: s in out' ==> |s| >= 2
    ensures |Flatten(out'[k + 1..])| + |out'| < |Flatten(out[k..])| + |out| + 1
  {
    var s := out[k];
    InteriorReached(out, k, reach, suites);
    var cut := FindCut(s, reach);
    if cut.Some? {
      var i := cut.value;
      CutAt(out, k, i, reach, suites);
      out' := out[k := s[..i + 1]] + [s[i..]];
    } else {
      SkipStep(out, k);
      out' := out;
      forall m | 0 < m < |s| - 1
        ensures Occ(suites, s[m]) <= 1
      {
        assert reach[s[m]] <= 1;
      }
    }
  }

  /** The cutting phase of `suites`: every suite holding, at an interior position,
      a point that occurs more than once over all the suites is cut there; the
      part from that point onwards is appended as a new suite and scanned in turn. */
  method Cut(suites: seq<seq<int>>) returns (out: seq<seq<int>>)
    ensures forall s, i :: s in out && 0 < i < |s| - 1 ==> Occ(suites, s[i]) <= 1
    ensures forall s, i :: s in out && 0 < i < |s| - 1 ==> Occ(out, s[i]) == 1
    ensures forall p :: Occ(suites, p) <= 1 ==> Occ(out, p) == Occ(suites, p)
    ensures multiset(AllPairs(out)) == multiset(AllPairs(suites))
    ensures (forall s :: s in suites ==> |s| >= 2) ==> forall s :: s in out ==> |s| >= 2
  {
    var reach := Connectivity.Connexity(suites);
    out := suites;
    var k := 0;
    while k < |out|
      invariant k <= |out|
      invariant forall p :: Occ(suites, p) <= 1 ==> Occ(out, p) == Occ(suites, p)
      invariant forall j, i :: 0 <= j < k && 0 < i < |out[j]| - 1 ==> Occ(suites, out[j][i]) <= 1
      invariant multiset(AllPairs(out)) == multiset(AllPairs(suites))
      invariant (forall s :: s in suites ==> |s| >= 2) ==> forall s :: s in out ==> |s| >= 2
      decreases |Flatten(out[k..])| + |out| - k
    {
      ghost var before := out;
      out := CutSuite(out, k, reach, suites);
      forall j, i | 0 <= j < k + 1 && 0 < i < |out[j]| - 1
        ensures Occ(suites, out[j][i]) <= 1
      {
        if j < k {
          assert out[j] == before[j];
        }
      }
      k := k + 1;
    }
    InteriorOnce(suites, out);
  }

  /** After cutting, an interior point of a suite occurs nowhere else. */
  lemma InteriorOnce(suites: seq<seq<int>>, out: seq<seq<int>>)
    requires forall s, i :: s in out && 0 < i < |s| - 1 ==> Occ(suites, s[i]) <= 1
    requires forall p :: Occ(suites, p) <= 1 ==> Occ(out, p) == Occ(suites, p)
    ensures forall s, i :: s in out && 0 < i < |s| - 1 ==> Occ(out, s[i]) == 1
  {
    forall s, i | s in out && 0 < i < |s| - 1
      ensures Occ(out, s[i]) == 1
    {
      var j :| 0 <= j < |out| && out[j] == s;
      OccursInFlatten(out, j, i);
      assert Occ(out, s[i]) == Occ(suites, s[i]);
    }
  }

  /** What the assembly phase promises: `pre` is made of suites of at least two
      points whose pairs are the edges of `lines`, each suite closed into a loop
      (when loops are wanted) or with no edge of a later suite attaching to it. */
  ghost predicate Assembled(lines: seq<Edge>, pre: seq<seq<int>>, oriented: bool, loop: bool)
  {
    && (forall s :: s in pre ==> |s| >= 2)
    && Bag(AllPairs(pre), oriented) == Bag(lines, oriented)
    && forall j :: 0 <= j < |pre| ==>
      (loop && pre[j][0] == pre[j][|pre[j]| - 1])
      || (forall e :: e in AllPairs(pre[j + 1..]) ==> Attach(pre[j], e, oriented).None?)
  }

  /** What the cutting phase promises: `out` keeps the pairs of `pre` and the
      count of every point occurring at most once in it, and an interior point of
      `out` occurred at most once in `pre` and occurs exactly once in `out`. */
  ghost predicate CutOf(pre: seq<seq<int>>, out: seq<seq<int>>)
  {
    && (forall s, i :: s in out && 0 < i < |s| - 1 ==> Occ(pre, s[i]) <= 1)
    && (forall s, i :: s in out && 0 < i < |s| - 1 ==> Occ(out, s[i]) == 1)
    && (forall p :: Occ(pre, p) <= 1 ==> Occ(out, p) == Occ(pre, p))
    && multiset(AllPairs(out)) == multiset(AllPairs(pre))
  }

  /** `suites` for 2-point edges: assemble the suites, then cut them when `cut` is set. */
  method BuildSuites(lines: seq<Edge>, oriented: bool, cut: bool, loop: bool) returns (suites: seq<seq<int>>)
    ensures forall s :: s in suites ==> |s| >= 2
    ensures Bag(AllPairs(suites), oriented) == Bag(lines, oriented)
    ensures oriented ==> multiset(AllPairs(suites)) == multiset(lines)
    ensures |AllPairs(suites)| == |lines|
    ensures cut ==> forall s, i :: s in suites && 0 < i < |s| - 1 ==> Occ(suites, s[i]) == 1
    ensures !cut ==> forall j :: 0 <= j < |suites| ==>
      (loop && suites[j][0] == suites[j][|suites[j]| - 1])
      || (forall e :: e in AllPairs(suites[j + 1..]) ==> Attach(suites[j], e, oriented).None?)
    ensures exists pre :: Assembled(lines, pre, oriented, loop) && (if cut then CutOf(pre, suites) else suites == pre)
  {
    suites := Assemble(lines, oriented, loop);
    ghost var pre := suites;
    assert Assembled(lines, pre, oriented, loop);
    if cut {
      var pieces := Cut(suites);
      assert CutOf(pre, pieces);
      BagPermutation(AllPairs(pieces), AllPairs(suites), oriented);
      suites := pieces;
    }
    if oriented {
      BagOriented(AllPairs(suites));
      BagOriented(lines);
    }
    BagSize(AllPairs(suites), oriented);
    BagSize(lines, oriented);
  }
}
