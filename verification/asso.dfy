/** The associative container `Asso` of madcad/hashing.py: a multimap stored as
    one flat table from (slot, key) to value. The values of a key sit in slots
    0, 1, .., n-1 with no gap, which is what lets `add` append in the first free
    slot and `remove` swap the match with the last slot. */
module Asso {
  import opened Failures
  import Collections

  /** The flat table: entry (i, key) holds the i-th value associated with key. */
  type Table<K(==,!new), V> = map<(int, K), V>

  /** Slots 0 .. n-1 of every key are filled, none negative, none missing. */
  ghost predicate GapFree<K(!new), V>(t: Table<K, V>)
  {
    forall i: int, k: K :: (i, k) in t ==> 0 <= i && forall j :: 0 <= j < i ==> (j, k) in t
  }

  /** The slot numbers in use for key. */
  ghost function Slots<K(!new), V>(t: Table<K, V>, key: K): set<int>
  {
    set s | s in t.Keys && s.1 == key :: s.0
  }

  /** The number of values associated with key. */
  ghost function Count<K(!new), V>(t: Table<K, V>, key: K): nat
  {
    |Slots(t, key)|
  }

  lemma SlotsAreRange<K(!new), V>(t: Table<K, V>, key: K)
    requires GapFree(t)
    ensures forall j :: (j, key) in t <==> 0 <= j < Count(t, key)
  {
    var s := Slots(t, key);
    forall j
      ensures j in s <==> (j, key) in t
    {
      if (j, key) in t {
        assert (j, key) in t.Keys && (j, key).1 == key;
      }
    }
    Collections.DownClosedIsRange(s);
  }

  /** A gap-free table whose slots of key are exactly 0 .. n-1 has n values for key. */
  lemma CountIs<K(!new), V>(t: Table<K, V>, key: K, n: nat)
    requires GapFree(t)
    requires forall j :: (j, key) in t <==> 0 <= j < n
    ensures Count(t, key) == n
  {
    SlotsAreRange(t, key);
    var c := Count(t, key);
    assert (c, key) !in t;
    assert (n, key) !in t;
    assert c < n ==> (c, key) in t;
    assert n < c ==> (n, key) in t;
  }

  /** The values associated with key, in slot order: the abstract view of the table. */
  ghost function Values<K(!new), V>(t: Table<K, V>, key: K): (vs: seq<V>)
    requires GapFree(t)
    ensures |vs| == Count(t, key)
    ensures forall j :: 0 <= j < |vs| ==> (j, key) in t && vs[j] == t[(j, key)]
  {
    SlotsAreRange(t, key);
    seq(Count(t, key), j requires 0 <= j < Count(t, key) => t[(j, key)])
  }

  /** Two gap-free tables that agree on every slot of key agree on its values. */
  lemma SameSlotsSameValues<K(!new), V>(t: Table<K, V>, t': Table<K, V>, key: K)
    requires GapFree(t) && GapFree(t')
    requires forall j :: (j, key) in t <==> (j, key) in t'
    requires forall j :: (j, key) in t ==> t[(j, key)] == t'[(j, key)]
    ensures Values(t', key) == Values(t, key)
  {
    SlotsAreRange(t, key);
    CountIs(t', key, Count(t, key));
  }

  /** The values of key, in the order their pairs appear in pairs. */
  ghost function ValuesIn<K(!new), V>(pairs: seq<(K, V)>, key: K): seq<V>
  {
    if |pairs| == 0 then []
    else
      var last := pairs[|pairs| - 1];
      ValuesIn(pairs[..|pairs| - 1], key) + (if last.0 == key then [last.1] else [])
  }

  /** An empty Asso. */
  function Empty<K(==,!new), V>(): (t: Table<K, V>)
    ensures GapFree(t)
    ensures forall key :: Values(t, key) == []
  {
    map[]
  }

  /** `connexity`: count the filled slots of key from slot 0 upwards. */
  method Connexity<K(==,!new), V>(t: Table<K, V>, key: K) returns (n: nat)
    requires GapFree(t)
    ensures n == |Values(t, key)|
    ensures (n, key) !in t
  {
    SlotsAreRange(t, key);
    n := 0;
    while (n, key) in t
      invariant n <= Count(t, key)
      decreases Count(t, key) - n
    {
      n := n + 1;
    }
  }

  /** `__contains__`: a key is present when its slot 0 is filled. */
  function Contains<K(==,!new), V>(t: Table<K, V>, key: K): (b: bool)
    requires GapFree(t)
    ensures b <==> |Values(t, key)| > 0
  {
    SlotsAreRange(t, key);
    (0, key) in t
  }

  /** `__getitem__`: the values of key read from slot 0 upwards. */
  method Get<K(==,!new), V>(t: Table<K, V>, key: K) returns (vs: seq<V>)
    requires GapFree(t)
    ensures vs == Values(t, key)
    ensures forall j :: 0 <= j < |vs| ==> (j, key) in t && vs[j] == t[(j, key)]
  {
    SlotsAreRange(t, key);
    vs := [];
    var i := 0;
    while (i, key) in t
      invariant i <= Count(t, key)
      invariant vs == Values(t, key)[..i]
      decreases Count(t, key) - i
    {
      vs := vs + [t[(i, key)]];
      i := i + 1;
    }
  }

  /** `add`: store value in the first free slot of key. */
  method Add<K(==,!new), V>(t: Table<K, V>, key: K, value: V) returns (t': Table<K, V>)
    requires GapFree(t)
    ensures GapFree(t')
    ensures (|Values(t, key)|, key) !in t && t' == t[(|Values(t, key)|, key) := value]
    ensures Values(t', key) == Values(t, key) + [value]
    ensures forall k :: k != key ==> Values(t', k) == Values(t, k)
  {
    SlotsAreRange(t, key);
    var i := 0;
    while (i, key) in t
      invariant i <= Count(t, key)
      decreases Count(t, key) - i
    {
      i := i + 1;
    }
    t' := t[(i, key) := value];
    AddValues(t, key, value, i, t');
  }

  lemma AddValues<K(!new), V>(t: Table<K, V>, key: K, value: V, n: nat, t': Table<K, V>)
    requires GapFree(t) && n == Count(t, key)
    requires t' == t[(n, key) := value]
    ensures GapFree(t')
    ensures Values(t', key) == Values(t, key) + [value]
    ensures forall k :: k != key ==> Values(t', k) == Values(t, k)
  {
    SlotsAreRange(t, key);
    CountIs(t', key, n + 1);
    forall k | k != key
      ensures Values(t', k) == Values(t, k)
    {
      SameSlotsSameValues(t, t', k);
    }
  }

  /** One swap-removal: slot j of key takes the value of the last slot, which is dropped. */
  function SwapWithLast<K(==,!new), V>(t: Table<K, V>, key: K, j: int, last: int): (t': Table<K, V>)
    requires GapFree(t) && 0 <= j <= last && last == Count(t, key) - 1
    ensures GapFree(t')
    ensures Values(t', key) == Collections.SwapPop(Values(t, key), j)
    ensures forall k :: k != key ==> Values(t', k) == Values(t, k)
  {
    SlotsAreRange(t, key);
    var t' := t[(j, key) := t[(last, key)]] - {(last, key)};
    SwapWithLastValues(t, key, j, last, t');
    t'
  }

  lemma SwapWithLastValues<K(!new), V>(t: Table<K, V>, key: K, j: int, last: int, t': Table<K, V>)
    requires GapFree(t) && 0 <= j <= last && last == Count(t, key) - 1
    requires (last, key) in t
    requires t' == t[(j, key) := t[(last, key)]] - {(last, key)}
    ensures GapFree(t')
    ensures Values(t', key) == Collections.SwapPop(Values(t, key), j)
    ensures forall k :: k != key ==> Values(t', k) == Values(t, k)
  {
    SlotsAreRange(t, key);
    CountIs(t', key, last);
    forall k | k != key
      ensures Values(t', k) == Values(t, k)
    {
      SameSlotsSameValues(t, t', k);
    }
  }

  /** The highest position of x in vs, or -1 when x does not occur. */
  ghost function LastIndexOf<T>(vs: seq<T>, x: T): (j: int)
    ensures -1 <= j < |vs|
    ensures j == -1 <==> x !in vs
    ensures 0 <= j ==> vs[j] == x
    ensures forall m :: j < m < |vs| ==> vs[m] != x
  {
    if |vs| == 0 then -1
    else if vs[|vs| - 1] == x then |vs| - 1
    else LastIndexOf(vs[..|vs| - 1], x)
  }

  /** Removing a value just added to a key finds it in the last slot and drops
      it: the key's values are back to what they were before the add. */
  lemma RemoveUndoesAdd<K(!new), V>(t: Table<K, V>, t': Table<K, V>, key: K, value: V)
    requires GapFree(t) && GapFree(t')
    requires Values(t', key) == Values(t, key) + [value]
    ensures value in Values(t', key)
    ensures Collections.SwapPop(Values(t', key), LastIndexOf(Values(t', key), value)) == Values(t, key)
  {
    var vs := Values(t', key);
    assert vs[|vs| - 1] == value;
    assert LastIndexOf(vs, value) == |vs| - 1;
  }

  /** `remove`: scan the slots of key downwards from the last one; the first slot
      holding value takes the last slot's value and the last slot is dropped.
      KeyError when value is not associated with key. */
  method Remove<K(==,!new), V(==)>(t: Table<K, V>, key: K, value: V) returns (r: Result<Table<K, V>>)
    requires GapFree(t)
    ensures value !in Values(t, key) <==> r == Err(KeyError)
    ensures r.Ok? ==> GapFree(r.value)
    ensures r.Ok? ==> Values(r.value, key) == Collections.SwapPop(Values(t, key), LastIndexOf(Values(t, key), value))
    ensures r.Ok? ==> multiset(Values(r.value, key)) == multiset(Values(t, key)) - multiset{value}
    ensures r.Ok? ==> forall k :: k != key ==> Values(r.value, k) == Values(t, k)
  {
    var n := Connexity(t, key);
    var last := n as int - 1;
    var i: int := last;
    while i >= 0
      invariant -1 <= i <= last
      invariant forall m :: i < m <= last ==> Values(t, key)[m] != value
    {
      if t[(i, key)] == value {
        Collections.SwapPopMultiset(Values(t, key), i);
        r := Ok(SwapWithLast(t, key, i, last));
        return;
      }
      i := i - 1;
    }
    r := Err(KeyError);
  }

  /** `discard`: remove every occurrence of value under key by the same downward
      swap-removal scan; never fails. */
  method Discard<K(==,!new), V(==)>(t: Table<K, V>, key: K, value: V) returns (t': Table<K, V>)
    requires GapFree(t)
    ensures GapFree(t')
    ensures value !in Values(t', key)
    ensures multiset(Values(t', key)) == multiset(Values(t, key))[value := 0]
    ensures forall k :: k != key ==> Values(t', k) == Values(t, k)
  {
    var n := Connexity(t, key);
    var last := n as int - 1;
    var i: int := last;
    t' := t;
    while i >= 0
      invariant GapFree(t')
      invariant -1 <= i <= last < n && last == |Values(t', key)| - 1
      invariant Values(t', key)[..i + 1] == Values(t, key)[..i + 1]
      invariant forall m :: i < m <= last ==> Values(t', key)[m] != value
      invariant multiset(Values(t', key))[value := 0] == multiset(Values(t, key))[value := 0]
      invariant forall k :: k != key ==> Values(t', k) == Values(t, k)
    {
      if t'[(i, key)] == value {
        ghost var before := Values(t', key);
        t' := SwapWithLast(t', key, i, last);
        DiscardStep(before, Values(t, key), i, value);
        last := last - 1;
      }
      i := i - 1;
    }
    assert multiset(Values(t', key))[value] == 0;
  }

  /** One matching step of the discard scan, on the abstract values. */
  lemma DiscardStep<V>(vs: seq<V>, original: seq<V>, i: nat, value: V)
    requires i < |vs| && i < |original| && vs[i] == value
    requires vs[..i + 1] == original[..i + 1]
    requires forall m :: i < m < |vs| ==> vs[m] != value
    ensures Collections.SwapPop(vs, i)[..i] == original[..i]
    ensures forall m :: i - 1 < m < |vs| - 1 ==> Collections.SwapPop(vs, i)[m] != value
    ensures multiset(Collections.SwapPop(vs, i))[value := 0] == multiset(vs)[value := 0]
  {
    Collections.SwapPopMultiset(vs, i);
    assert vs[..i] == original[..i] by {
      assert vs[..i] == vs[..i + 1][..i];
      assert original[..i] == original[..i + 1][..i];
    }
  }

  /** `update` from (key, value) pairs: add each pair in turn. */
  method Update<K(==,!new), V>(t: Table<K, V>, pairs: seq<(K, V)>) returns (t': Table<K, V>)
    requires GapFree(t)
    ensures GapFree(t')
    ensures forall key :: Values(t', key) == Values(t, key) + ValuesIn(pairs, key)
  {
    t' := t;
    for i := 0 to |pairs|
      invariant GapFree(t')
      invariant forall key :: Values(t', key) == Values(t, key) + ValuesIn(pairs[..i], key)
    {
      assert pairs[..i + 1][..i] == pairs[..i];
      t' := Add(t', pairs[i].0, pairs[i].1);
    }
    assert pairs[..|pairs|] == pairs;
  }

  /** `__init__` from (key, value) pairs: an empty table updated with them.
      An empty iterable leaves the table empty, as the source's truth test does. */
  method Create<K(==,!new), V>(pairs: seq<(K, V)>) returns (t: Table<K, V>)
    ensures GapFree(t)
    ensures forall key :: Values(t, key) == ValuesIn(pairs, key)
  {
    t := Empty();
    if |pairs| > 0 {
      t := Update(t, pairs);
    }
  }
}
