/** `PositionMap`: objects filed under every cell their primitive (point,
    segment, triangle) touches. The rasterisation `keysfor` is a parameter: it
    maps a primitive of type S to the cells it covers, in the order it yields them. */
module PositionMaps {
  import opened Failures
  import opened Grid
  import opened Collections

  /** The cell size and the map from cell to the list of objects filed there. */
  datatype PositionMap<O> = PositionMap(cellsize: real, dict: map<Cell, seq<O>>)

  /** What `update` accepts: another map, or pairs (primitive, object). */
  datatype Source<S, O> = FromMap(other: PositionMap<O>) | FromPairs(pairs: seq<(S, O)>)

  /** Every filed list is non-empty: a cell appears only once something is filed under it. */
  ghost predicate Valid<O(!new)>(m: PositionMap<O>)
  {
    forall k :: k in m.dict ==> |m.dict[k]| > 0
  }

  /** The objects filed under k, none when k is absent. */
  function CellList<O(!new)>(dict: map<Cell, seq<O>>, k: Cell): seq<O>
  {
    if k in dict then dict[k] else []
  }

  function Empty<O(!new)>(cellsize: real): (m: PositionMap<O>)
    ensures Valid(m) && |m.dict| == 0 && m.cellsize == cellsize
  {
    PositionMap(cellsize, map[])
  }

  /** One step of `PositionMap.add`: start the list of k or append to it. */
  function File<O(!new)>(dict: map<Cell, seq<O>>, k: Cell, obj: O): (r: map<Cell, seq<O>>)
    ensures r.Keys == dict.Keys + {k}
    ensures CellList(r, k) == CellList(dict, k) + [obj]
    ensures forall c :: c != k ==> CellList(r, c) == CellList(dict, c)
  {
    if k !in dict then dict[k := [obj]] else dict[k := dict[k] + [obj]]
  }

  /** The loop of `PositionMap.add`: file obj under every key, in order. */
  function FileAll<O(!new)>(dict: map<Cell, seq<O>>, keys: seq<Cell>, obj: O): (r: map<Cell, seq<O>>)
    ensures forall c :: c in r <==> c in dict || c in keys
    ensures forall c :: CellList(r, c) == CellList(dict, c) + Repeat(obj, Multiplicity(keys, c))
    decreases |keys|
  {
    if |keys| == 0 then dict
    else
      var r := FileAll(File(dict, keys[0], obj), keys[1..], obj);
      FileAllCells(dict, keys, obj, r);
      r
  }

  lemma FileAllCells<O(!new)>(dict: map<Cell, seq<O>>, keys: seq<Cell>, obj: O, r: map<Cell, seq<O>>)
    requires |keys| > 0
    requires forall c :: c in r <==> c in File(dict, keys[0], obj) || c in keys[1..]
    requires forall c :: CellList(r, c) == CellList(File(dict, keys[0], obj), c) + Repeat(obj, Multiplicity(keys[1..], c))
    ensures forall c :: c in r <==> c in dict || c in keys
    ensures forall c :: CellList(r, c) == CellList(dict, c) + Repeat(obj, Multiplicity(keys, c))
  {
    assert keys == [keys[0]] + keys[1..];
    forall c
      ensures CellList(r, c) == CellList(dict, c) + Repeat(obj, Multiplicity(keys, c))
    {
      FileAllCell(dict, keys, obj, CellList(r, c), c);
    }
  }

  lemma FileAllCell<O(!new)>(dict: map<Cell, seq<O>>, keys: seq<Cell>, obj: O, cell: seq<O>, c: Cell)
    requires |keys| > 0
    requires cell == CellList(File(dict, keys[0], obj), c) + Repeat(obj, Multiplicity(keys[1..], c))
    ensures cell == CellList(dict, c) + Repeat(obj, Multiplicity(keys, c))
  {
    var n := Multiplicity(keys[1..], c);
    assert keys == [keys[0]] + keys[1..];
    MultiplicityCons(keys[0], keys[1..], c);
    if c == keys[0] {
      RepeatCons(obj, n);
      assert CellList(dict, c) + [obj] + Repeat(obj, n) == CellList(dict, c) + ([obj] + Repeat(obj, n));
    }
  }

  /** `PositionMap.add`: file obj under every cell of `keysfor(space)`. */
  function Add<S, O(!new)>(keysfor: S -> seq<Cell>, m: PositionMap<O>, space: S, obj: O): (r: PositionMap<O>)
    ensures r.cellsize == m.cellsize
    ensures Valid(m) ==> Valid(r)
    ensures forall k :: k in r.dict <==> k in m.dict || k in keysfor(space)
    ensures forall k :: CellList(r.dict, k) == CellList(m.dict, k) + Repeat(obj, Multiplicity(keysfor(space), k))
  {
    var r := PositionMap(m.cellsize, FileAll(m.dict, keysfor(space), obj));
    assert Valid(m) ==> Valid(r) by {
      forall k | k in r.dict && Valid(m)
        ensures |r.dict[k]| > 0
      {
        assert CellList(r.dict, k) == r.dict[k];
        if k !in m.dict {
          assert Multiplicity(keysfor(space), k) > 0;
        }
      }
    }
    r
  }

  /** The loop of `PositionMap.get`: the lists of the keys present, one after the other. */
  function Gather<O(!new)>(dict: map<Cell, seq<O>>, keys: seq<Cell>): (r: seq<O>)
    ensures forall o :: o in r <==> exists k :: k in keys && k in dict && o in dict[k]
    decreases |keys|
  {
    if |keys| == 0 then []
    else
      var r := CellList(dict, keys[0]) + Gather(dict, keys[1..]);
      assert forall k :: k in keys <==> k == keys[0] || k in keys[1..];
      r
  }

  /** `PositionMap.get`: every object filed under some cell of `keysfor(space)`. */
  function Get<S, O(!new)>(keysfor: S -> seq<Cell>, m: PositionMap<O>, space: S): (r: seq<O>)
    ensures forall o :: o in r <==> exists k :: k in keysfor(space) && k in m.dict && o in m.dict[k]
  {
    Gather(m.dict, keysfor(space))
  }

  /** `PositionMap.__contains__`: get yields at least one object. */
  function Contains<S, O(!new)>(keysfor: S -> seq<Cell>, m: PositionMap<O>, space: S): (b: bool)
    ensures b <==> exists k :: k in keysfor(space) && k in m.dict && |m.dict[k]| > 0
    ensures Valid(m) ==> (b <==> exists k :: k in keysfor(space) && k in m.dict)
  {
    var r := Get(keysfor, m, space);
    if |r| > 0 then
      assert r[0] in r;
      true
    else
      assert forall k :: k in keysfor(space) && k in m.dict && |m.dict[k]| > 0 ==> m.dict[k][0] in r;
      false
  }

  /** After add, obj is found by get at its own primitive, when the primitive covers some cell. */
  lemma AddThenGet<S, O(!new)>(keysfor: S -> seq<Cell>, m: PositionMap<O>, space: S, obj: O)
    requires |keysfor(space)| > 0
    ensures obj in Get(keysfor, Add(keysfor, m, space, obj), space)
    ensures Contains(keysfor, Add(keysfor, m, space, obj), space)
  {
    var k := keysfor(space)[0];
    var r := Add(keysfor, m, space, obj);
    assert Multiplicity(keysfor(space), k) > 0;
    assert CellList(r.dict, k) == CellList(m.dict, k) + Repeat(obj, Multiplicity(keysfor(space), k));
    assert obj in r.dict[k];
  }

  /** The merge of `update` from another map: the lists of a shared cell are concatenated. */
  function Merge<O(!new)>(a: map<Cell, seq<O>>, b: map<Cell, seq<O>>): (r: map<Cell, seq<O>>)
    ensures r.Keys == a.Keys + b.Keys
    ensures forall k :: CellList(r, k) == CellList(a, k) + CellList(b, k)
  {
    map k | k in a.Keys + b.Keys :: CellList(a, k) + CellList(b, k)
  }

  /** `PositionMap.update` with another map: the cell sizes must agree. */
  function UpdateMap<O(!new)>(m: PositionMap<O>, other: PositionMap<O>): (r: Result<PositionMap<O>>)
    ensures r.Err? <==> m.cellsize != other.cellsize
    ensures r.Err? ==> r.error == AssertionError
    ensures r.Ok? ==> r.value.cellsize == m.cellsize && (Valid(m) && Valid(other) ==> Valid(r.value))
    ensures r.Ok? ==> forall k :: CellList(r.value.dict, k) == CellList(m.dict, k) + CellList(other.dict, k)
  {
    if m.cellsize != other.cellsize then Err(AssertionError)
    else Ok(PositionMap(m.cellsize, Merge(m.dict, other.dict)))
  }

  /** What get finds in a merged map is what it finds in both, with multiplicity. */
  lemma {:induction false} GatherMerge<O(!new)>(a: map<Cell, seq<O>>, b: map<Cell, seq<O>>, keys: seq<Cell>)
    ensures multiset(Gather(Merge(a, b), keys)) == multiset(Gather(a, keys)) + multiset(Gather(b, keys))
    decreases |keys|
  {
    if |keys| > 0 {
      GatherMerge(a, b, keys[1..]);
      var k := keys[0];
      assert CellList(Merge(a, b), k) == CellList(a, k) + CellList(b, k);
    }
  }

  /** After merging, a primitive is found in the result exactly when it is found in one of the two maps. */
  lemma UpdateMapContains<S, O(!new)>(keysfor: S -> seq<Cell>, m: PositionMap<O>, other: PositionMap<O>, space: S)
    requires m.cellsize == other.cellsize
    ensures multiset(Get(keysfor, UpdateMap(m, other).value, space))
      == multiset(Get(keysfor, m, space)) + multiset(Get(keysfor, other, space))
    ensures Contains(keysfor, UpdateMap(m, other).value, space)
      <==> Contains(keysfor, m, space) || Contains(keysfor, other, space)
  {
    GatherMerge(m.dict, other.dict, keysfor(space));
    var g, ga, gb := Get(keysfor, UpdateMap(m, other).value, space), Get(keysfor, m, space), Get(keysfor, other, space);
    assert |multiset(g)| == |multiset(ga)| + |multiset(gb)|;
  }

  /** What the pairs file under cell k, in order: each object once per time its
      primitive covers k. */
  function Contributions<S, O(!new)>(keysfor: S -> seq<Cell>, pairs: seq<(S, O)>, k: Cell): seq<O>
    decreases |pairs|
  {
    if |pairs| == 0 then []
    else Repeat(pairs[0].1, Multiplicity(keysfor(pairs[0].0), k)) + Contributions(keysfor, pairs[1..], k)
  }

  /** `PositionMap.update` with pairs: add them one after the other. */
  function UpdatePairs<S, O(!new)>(keysfor: S -> seq<Cell>, m: PositionMap<O>, pairs: seq<(S, O)>): (r: PositionMap<O>)
    ensures r.cellsize == m.cellsize
    ensures Valid(m) ==> Valid(r)
    ensures forall k :: CellList(r.dict, k) == CellList(m.dict, k) + Contributions(keysfor, pairs, k)
    decreases |pairs|
  {
    if |pairs| == 0 then m
    else
      var m1 := Add(keysfor, m, pairs[0].0, pairs[0].1);
      var r := UpdatePairs(keysfor, m1, pairs[1..]);
      UpdatePairsCells(keysfor, m, m1, r, pairs);
      r
  }

  lemma UpdatePairsCells<S, O(!new)>(keysfor: S -> seq<Cell>, m: PositionMap<O>, m1: PositionMap<O>, r: PositionMap<O>, pairs: seq<(S, O)>)
    requires |pairs| > 0
    requires forall k :: CellList(m1.dict, k) == CellList(m.dict, k) + Repeat(pairs[0].1, Multiplicity(keysfor(pairs[0].0), k))
    requires forall k :: CellList(r.dict, k) == CellList(m1.dict, k) + Contributions(keysfor, pairs[1..], k)
    ensures forall k :: CellList(r.dict, k) == CellList(m.dict, k) + Contributions(keysfor, pairs, k)
  {
    forall k
      ensures CellList(r.dict, k) == CellList(m.dict, k) + Contributions(keysfor, pairs, k)
    {
      ConcatAssoc(CellList(m.dict, k), Repeat(pairs[0].1, Multiplicity(keysfor(pairs[0].0), k)), Contributions(keysfor, pairs[1..], k));
    }
  }

  /** After update with pairs, every object is found at its own primitive when that covers some cell. */
  lemma {:induction false} UpdatePairsThenGet<S, O(!new)>(keysfor: S -> seq<Cell>, m: PositionMap<O>, pairs: seq<(S, O)>, i: nat)
    requires i < |pairs| && |keysfor(pairs[i].0)| > 0
    ensures pairs[i].1 in Get(keysfor, UpdatePairs(keysfor, m, pairs), pairs[i].0)
  {
    var k := keysfor(pairs[i].0)[0];
    ContributionsHold(keysfor, pairs, i, k);
    var r := UpdatePairs(keysfor, m, pairs);
    assert CellList(r.dict, k) == CellList(m.dict, k) + Contributions(keysfor, pairs, k);
    assert pairs[i].1 in r.dict[k];
  }

  lemma {:induction false} ContributionsHold<S, O(!new)>(keysfor: S -> seq<Cell>, pairs: seq<(S, O)>, i: nat, k: Cell)
    requires i < |pairs| && k in keysfor(pairs[i].0)
    ensures pairs[i].1 in Contributions(keysfor, pairs, k)
    decreases i
  {
    if i == 0 {
      assert Multiplicity(keysfor(pairs[0].0), k) > 0;
      assert Repeat(pairs[0].1, Multiplicity(keysfor(pairs[0].0), k))[0] == pairs[0].1;
    } else {
      ContributionsHold(keysfor, pairs[1..], i - 1, k);
    }
  }

  /** `PositionMap.update`: from another map or from pairs. */
  function Update<S, O(!new)>(keysfor: S -> seq<Cell>, m: PositionMap<O>, source: Source<S, O>): (r: Result<PositionMap<O>>)
    ensures r.Err? <==> source.FromMap? && source.other.cellsize != m.cellsize
    ensures r.Ok? ==> r.value.cellsize == m.cellsize
    ensures r.Ok? && source.FromPairs? ==> forall k ::
      CellList(r.value.dict, k) == CellList(m.dict, k) + Contributions(keysfor, source.pairs, k)
    ensures r.Ok? && source.FromMap? ==> forall k ::
      CellList(r.value.dict, k) == CellList(m.dict, k) + CellList(source.other.dict, k)
    ensures r.Ok? && Valid(m) && (source.FromMap? ==> Valid(source.other)) ==> Valid(r.value)
  {
    match source
    case FromMap(other) => UpdateMap(m, other)
    case FromPairs(pairs) => Ok(UpdatePairs(keysfor, m, pairs))
  }

  /** `PositionMap.__init__`: an empty map of the given cell size, updated from the iterable if any. */
  function Create<S, O(!new)>(keysfor: S -> seq<Cell>, cellsize: real, iterable: Option<Source<S, O>>): (r: Result<PositionMap<O>>)
    ensures r.Err? <==> iterable.Some? && iterable.value.FromMap? && iterable.value.other.cellsize != cellsize
    ensures r.Ok? ==> r.value.cellsize == cellsize
    ensures iterable.None? ==> r.Ok? && r.value.dict == map[]
    ensures iterable.Some? && iterable.value.FromPairs? ==>
      r.Ok? && Valid(r.value) && forall k :: CellList(r.value.dict, k) == Contributions(keysfor, iterable.value.pairs, k)
    ensures r.Ok? && iterable.Some? && iterable.value.FromMap? ==>
      forall k :: CellList(r.value.dict, k) == CellList(iterable.value.other.dict, k)
  {
    match iterable
    case None => Ok(Empty(cellsize))
    case Some(source) =>
      var e := Empty(cellsize);
      var r := Update(keysfor, e, source);
      assert forall k :: CellList(e.dict, k) == [];
      r
  }

  /** Creating a map from another map of the same cell size copies its contents. */
  lemma CreateFromMap<S, O(!new)>(keysfor: S -> seq<Cell>, other: PositionMap<O>)
    ensures Create(keysfor, other.cellsize, Some(FromMap(other))) == Ok(other)
  {
    var r := Merge(map[], other.dict);
    forall k | k in other.dict
      ensures r[k] == other.dict[k]
    {
      assert CellList(r, k) == CellList(map[], k) + CellList(other.dict, k);
    }
    assert r == other.dict;
  }

  /** An object is among what the pairs file under cell k exactly when one of
      the pairs holds it with a primitive covering k. */
  lemma {:induction false} ContributionsMember<S, O(!new)>(keysfor: S -> seq<Cell>, pairs: seq<(S, O)>, k: Cell, o: O)
    ensures o in Contributions(keysfor, pairs, k) <==> exists i :: 0 <= i < |pairs| && pairs[i].1 == o && k in keysfor(pairs[i].0)
    decreases |pairs|
  {
    if |pairs| > 0 {
      ContributionsMember(keysfor, pairs[1..], k, o);
      var n := Multiplicity(keysfor(pairs[0].0), k);
      assert n > 0 <==> k in keysfor(pairs[0].0);
      assert o in Repeat(pairs[0].1, n) <==> n > 0 && o == pairs[0].1 by {
        if n > 0 && o == pairs[0].1 {
          assert Repeat(pairs[0].1, n)[0] == o;
        }
      }
      if exists i :: 0 <= i < |pairs| && pairs[i].1 == o && k in keysfor(pairs[i].0) {
        var i :| 0 <= i < |pairs| && pairs[i].1 == o && k in keysfor(pairs[i].0);
        if i > 0 {
          assert pairs[1..][i - 1] == pairs[i];
        }
      }
    }
  }

  /** A map created from pairs: get finds an object exactly when some pair holds
      it with a primitive sharing a cell with the one asked about. */
  lemma CreateFromPairsGet<S, O(!new)>(keysfor: S -> seq<Cell>, cellsize: real, pairs: seq<(S, O)>, space: S, o: O)
    ensures o in Get(keysfor, Create(keysfor, cellsize, Some(FromPairs(pairs))).value, space)
      <==> exists i, k :: 0 <= i < |pairs| && pairs[i].1 == o && k in keysfor(space) && k in keysfor(pairs[i].0)
  {
    var m := Create(keysfor, cellsize, Some(FromPairs(pairs))).value;
    if o in Get(keysfor, m, space) {
      FoundFromPairs(keysfor, pairs, m, space, o);
    }
    if exists i, k :: 0 <= i < |pairs| && pairs[i].1 == o && k in keysfor(space) && k in keysfor(pairs[i].0) {
      var i, k :| 0 <= i < |pairs| && pairs[i].1 == o && k in keysfor(space) && k in keysfor(pairs[i].0);
      PairFound(keysfor, pairs, m, space, o, i, k);
    }
  }

  lemma FoundFromPairs<S, O(!new)>(keysfor: S -> seq<Cell>, pairs: seq<(S, O)>, m: PositionMap<O>, space: S, o: O)
    requires forall k :: CellList(m.dict, k) == Contributions(keysfor, pairs, k)
    requires o in Get(keysfor, m, space)
    ensures exists i, k :: 0 <= i < |pairs| && pairs[i].1 == o && k in keysfor(space) && k in keysfor(pairs[i].0)
  {
    var k :| k in keysfor(space) && k in m.dict && o in m.dict[k];
    assert o in CellList(m.dict, k);
    ContributionsMember(keysfor, pairs, k, o);
  }

  lemma PairFound<S, O(!new)>(keysfor: S -> seq<Cell>, pairs: seq<(S, O)>, m: PositionMap<O>, space: S, o: O, i: nat, k: Cell)
    requires forall k :: CellList(m.dict, k) == Contributions(keysfor, pairs, k)
    requires i < |pairs| && pairs[i].1 == o && k in keysfor(space) && k in keysfor(pairs[i].0)
    ensures o in Get(keysfor, m, space)
  {
    ContributionsMember(keysfor, pairs, k, o);
    assert o in CellList(m.dict, k);
  }
}
