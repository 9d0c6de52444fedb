/** `PointSet`: a growing list of points, indexed by the cell each point lies in.
    A point close to a stored point is found, and adding it changes nothing and
    returns the index stored under its first occupied candidate cell, which may
    be another nearby point's.
    The point type P and its key functions are parameters: the source computes
    the keys in floating point (see Grid for the exact-real version). */
module PointSets {
  import opened Failures
  import opened Grid

  /** The two key functions of a point set: the cell a point is stored under
      (`keyfor`), and the cells where a point equivalent to it may be stored (`keysfor`). */
  datatype Hashing<!P> = Hashing(keyfor: P -> Cell, keysfor: P -> seq<Cell>)

  /** Every point is looked for in the cell it would be stored in. */
  ghost predicate Sound<P(!new)>(h: Hashing<P>)
  {
    forall p :: h.keyfor(p) in h.keysfor(p)
  }

  /** The key functions of the source with exact coordinates: the own cell of
      the point, and the eight cells around it within half a cell less eps.
      With eps between 0 and 1/2 a point is looked for in its own cell, and
      only in cells touching it. */
  function Voxels(cellsize: real, eps: real): (h: Hashing<Vec3>)
    requires cellsize != 0.0
    ensures forall p :: |h.keysfor(p)| == 8
    ensures 0.0 <= eps <= 0.5 ==> Sound(h)
    ensures 0.0 <= eps <= 0.5 ==> forall p, k :: k in h.keysfor(p) ==> Touching(h.keyfor(p), k)
  {
    Hashing((p: Vec3) => CellOf(p, cellsize), (p: Vec3) => Neighbourhood(p, cellsize, eps))
  }

  /** A stored point merges every later point near it: such a point is
      contained, and adding it changes nothing. */
  lemma VoxelsMerge(cellsize: real, eps: real, s: PointSet<Vec3>, p: Vec3, q: Vec3)
    requires cellsize != 0.0 && 0.0 <= eps <= 0.5
    requires CellOf(p, cellsize) in s.dict && Near(p, q, cellsize, eps)
    ensures Contains(Voxels(cellsize, eps), s, q)
    ensures Add(Voxels(cellsize, eps), s, q).0 == s
    ensures Ok(Add(Voxels(cellsize, eps), s, q).1) == GetItem(Voxels(cellsize, eps), s, q)
  {
    NeighbourhoodReaches(q, p, cellsize, eps);
  }

  /** The point buffer and the map from cell to the index of the point stored for it. */
  datatype PointSet<P> = PointSet(points: seq<P>, dict: map<Cell, nat>)

  /** Every stored index is a point of the buffer lying in the cell it is stored under. */
  ghost predicate Valid<P(!new)>(h: Hashing<P>, s: PointSet<P>)
  {
    forall k :: k in s.dict ==> s.dict[k] < |s.points| && h.keyfor(s.points[s.dict[k]]) == k
  }

  function Empty<P(!new)>(): (s: PointSet<P>)
    ensures |s.points| == 0 && |s.dict| == 0
  {
    PointSet([], map[])
  }

  /** The position of the first key of keys present in dict, if any. */
  function FirstHit(keys: seq<Cell>, dict: map<Cell, nat>): (r: Option<nat>)
    ensures r.None? <==> forall k :: k in keys ==> k !in dict
    ensures r.Some? ==> r.value < |keys| && keys[r.value] in dict
    ensures r.Some? ==> forall j :: 0 <= j < r.value ==> keys[j] !in dict
  {
    if |keys| == 0 then None
    else if keys[0] in dict then Some(0)
    else match FirstHit(keys[1..], dict)
      case None => None
      case Some(i) => Some(i + 1)
  }

  /** `PointSet.__contains__`: some cell where an equivalent point may be is occupied. */
  function Contains<P(!new)>(h: Hashing<P>, s: PointSet<P>, pt: P): (b: bool)
    ensures b <==> exists k :: k in h.keysfor(pt) && k in s.dict
  {
    FirstHit(h.keysfor(pt), s.dict).Some?
  }

  /** `PointSet.__getitem__`: the index stored under the first occupied cell of
      `keysfor(pt)`, or IndexError. */
  function GetItem<P(!new)>(h: Hashing<P>, s: PointSet<P>, pt: P): (r: Result<nat>)
    ensures r.Err? <==> !Contains(h, s, pt)
    ensures r.Err? ==> r.error == IndexError
    ensures r.Ok? ==> exists i :: (0 <= i < |h.keysfor(pt)| && h.keysfor(pt)[i] in s.dict
      && s.dict[h.keysfor(pt)[i]] == r.value && forall j :: 0 <= j < i ==> h.keysfor(pt)[j] !in s.dict)
    ensures r.Ok? && Valid(h, s) ==> r.value < |s.points| && h.keyfor(s.points[r.value]) in h.keysfor(pt)
  {
    var keys := h.keysfor(pt);
    match FirstHit(keys, s.dict)
    case None => Err(IndexError)
    case Some(i) => Ok(s.dict[keys[i]])
  }

  /** `PointSet.add`: the index of an equivalent point already present, or else
      the point is appended and stored under its own cell. */
  function Add<P(!new)>(h: Hashing<P>, s: PointSet<P>, pt: P): (r: (PointSet<P>, nat))
    ensures Contains(h, s, pt) ==> r.0 == s && GetItem(h, s, pt) == Ok(r.1)
    ensures !Contains(h, s, pt) ==> r.0.points == s.points + [pt] && r.1 == |s.points|
    ensures !Contains(h, s, pt) ==> r.0.dict.Keys == s.dict.Keys + {h.keyfor(pt)} && r.0.dict[h.keyfor(pt)] == r.1
    ensures s.points <= r.0.points
    ensures forall k :: k in s.dict && (Sound(h) || k != h.keyfor(pt)) ==> k in r.0.dict && r.0.dict[k] == s.dict[k]
    ensures Valid(h, s) ==> Valid(h, r.0) && r.1 < |r.0.points| && h.keyfor(r.0.points[r.1]) in h.keysfor(pt) + [h.keyfor(pt)]
  {
    match GetItem(h, s, pt)
    case Ok(i) => (s, i)
    case Err(_) =>
      var l := |s.points|;
      (PointSet(s.points + [pt], s.dict[h.keyfor(pt) := l]), l)
  }

  /** After adding a point, it is found, at the index add returned. */
  lemma AddThenGet<P(!new)>(h: Hashing<P>, s: PointSet<P>, pt: P)
    requires Sound(h)
    ensures Contains(h, Add(h, s, pt).0, pt)
    ensures GetItem(h, Add(h, s, pt).0, pt) == Ok(Add(h, s, pt).1)
  {
    var keys := h.keysfor(pt);
    var (s', i) := Add(h, s, pt);
    assert h.keyfor(pt) in keys;
    if !Contains(h, s, pt) {
      var j := FirstHit(keys, s'.dict).value;
      assert keys[j] == h.keyfor(pt);
    }
  }

  /** Adding the same point twice changes nothing the second time. */
  lemma AddIdempotent<P(!new)>(h: Hashing<P>, s: PointSet<P>, pt: P)
    requires Sound(h)
    ensures Add(h, Add(h, s, pt).0, pt) == Add(h, s, pt)
  {
    AddThenGet(h, s, pt);
  }

  /** `PointSet.remove`: drop the first occupied cell of `keysfor(pt)` from the
      index and return the index stored there, or IndexError. The buffer is kept. */
  function Remove<P(!new)>(h: Hashing<P>, s: PointSet<P>, pt: P): (r: Result<(PointSet<P>, nat)>)
    ensures r.Err? <==> !Contains(h, s, pt)
    ensures r.Err? ==> r.error == IndexError
    ensures r.Ok? ==> GetItem(h, s, pt) == Ok(r.value.1) && r.value.0.points == s.points
    ensures r.Ok? ==> exists k :: (k in h.keysfor(pt) && k in s.dict && s.dict[k] == r.value.1
      && r.value.0.dict == s.dict - {k})
    ensures r.Ok? && Valid(h, s) ==> Valid(h, r.value.0)
    ensures r.Ok? ==> Discard(h, r.value.0, pt) == Discard(h, s, pt)
  {
    var keys := h.keysfor(pt);
    match FirstHit(keys, s.dict)
    case None => Err(IndexError)
    case Some(i) => Ok((PointSet(s.points, s.dict - {keys[i]}), s.dict[keys[i]]))
  }

  /** Removing a point just added gives back its index and the former index. */
  lemma RemoveAfterAdd<P(!new)>(h: Hashing<P>, s: PointSet<P>, pt: P)
    requires Sound(h) && !Contains(h, s, pt)
    ensures Remove(h, Add(h, s, pt).0, pt) == Ok((PointSet(s.points + [pt], s.dict), |s.points|))
  {
    var (s', i) := Add(h, s, pt);
    AddThenGet(h, s, pt);
    var r := Remove(h, s', pt);
    var k :| k in h.keysfor(pt) && k in s'.dict && s'.dict[k] == r.value.1 && r.value.0.dict == s'.dict - {k};
    assert k !in s.dict;
    assert k == h.keyfor(pt);
    assert r.value.0.dict == s.dict;
  }

  /** `PointSet.discard`: drop every cell of `keysfor(pt)` from the index. */
  function Discard<P(!new)>(h: Hashing<P>, s: PointSet<P>, pt: P): (r: PointSet<P>)
    ensures r.points == s.points
    ensures forall k :: k in r.dict <==> k in s.dict && k !in h.keysfor(pt)
    ensures forall k :: k in r.dict ==> r.dict[k] == s.dict[k]
    ensures !Contains(h, r, pt)
    ensures Valid(h, s) ==> Valid(h, r)
  {
    PointSet(s.points, s.dict - set k | k in h.keysfor(pt))
  }

  /** `PointSet.update`: add the points one after the other. */
  function Update<P(!new)>(h: Hashing<P>, s: PointSet<P>, pts: seq<P>): (r: PointSet<P>)
    ensures s.points <= r.points
    ensures forall i :: |s.points| <= i < |r.points| ==> r.points[i] in pts
    ensures Sound(h) ==> forall k :: k in s.dict ==> k in r.dict && r.dict[k] == s.dict[k]
    ensures Valid(h, s) ==> Valid(h, r)
    decreases |pts|
  {
    if |pts| == 0 then s else Update(h, Add(h, s, pts[0]).0, pts[1..])
  }

  /** After update, every point of the iterable is in the set. */
  lemma {:induction false} UpdateContains<P(!new)>(h: Hashing<P>, s: PointSet<P>, pts: seq<P>)
    requires Sound(h)
    ensures forall pt :: pt in pts ==> Contains(h, Update(h, s, pts), pt)
    decreases |pts|
  {
    if |pts| > 0 {
      var s1 := Add(h, s, pts[0]).0;
      UpdateContains(h, s1, pts[1..]);
      AddThenGet(h, s, pts[0]);
      var k :| k in h.keysfor(pts[0]) && k in s1.dict;
      assert k in Update(h, s1, pts[1..]).dict;
      forall pt | pt in pts
        ensures Contains(h, Update(h, s, pts), pt)
      {
        if pt != pts[0] {
          assert pt in pts[1..];
        }
      }
    }
  }

  /** `PointSet.difference_update`: discard the points one after the other. */
  function DifferenceUpdate<P(!new)>(h: Hashing<P>, s: PointSet<P>, pts: seq<P>): (r: PointSet<P>)
    ensures r.points == s.points
    ensures forall k :: k in r.dict ==> k in s.dict && r.dict[k] == s.dict[k]
    ensures Valid(h, s) ==> Valid(h, r)
    decreases |pts|
  {
    if |pts| == 0 then s else DifferenceUpdate(h, Discard(h, s, pts[0]), pts[1..])
  }

  /** After difference_update, no point of the iterable is in the set any more. */
  lemma {:induction false} DifferenceUpdateExcludes<P(!new)>(h: Hashing<P>, s: PointSet<P>, pts: seq<P>)
    ensures forall pt :: pt in pts ==> !Contains(h, DifferenceUpdate(h, s, pts), pt)
    decreases |pts|
  {
    if |pts| > 0 {
      var s1 := Discard(h, s, pts[0]);
      DifferenceUpdateExcludes(h, s1, pts[1..]);
      forall pt | pt in pts
        ensures !Contains(h, DifferenceUpdate(h, s, pts), pt)
      {
        if pt != pts[0] {
          assert pt in pts[1..];
        }
      }
    }
  }

  /** The index built over a managed buffer: every point stored under its own
      cell, walking the buffer backwards so that the lowest index of a cell wins. */
  method Managed<P(!new)>(h: Hashing<P>, points: seq<P>) returns (s: PointSet<P>)
    ensures s.points == points
    ensures Valid(h, s)
    ensures forall i :: 0 <= i < |points| ==> h.keyfor(points[i]) in s.dict
    ensures forall k :: k in s.dict ==> forall j :: 0 <= j < s.dict[k] ==> h.keyfor(points[j]) != k
  {
    var dict: map<Cell, nat> := map[];
    var i := |points|;
    while i > 0
      invariant 0 <= i <= |points|
      invariant forall k :: k in dict ==> i <= dict[k] < |points| && h.keyfor(points[dict[k]]) == k
      invariant forall j :: i <= j < |points| ==> h.keyfor(points[j]) in dict
      invariant forall k :: k in dict ==> forall j :: i <= j < dict[k] ==> h.keyfor(points[j]) != k
    {
      i := i - 1;
      dict := dict[h.keyfor(points[i]) := i];
    }
    s := PointSet(points, dict);
  }

  /** `PointSet.__init__`: a managed buffer is indexed as it is; otherwise the
      set starts empty and takes the points of the iterable. Passing both fails
      the source's assertion. */
  method Create<P(!new)>(h: Hashing<P>, iterable: Option<seq<P>>, manage: Option<seq<P>>) returns (r: Result<PointSet<P>>)
    ensures r.Err? <==> iterable.Some? && manage.Some?
    ensures r.Err? ==> r.error == AssertionError
    ensures r.Ok? ==> Valid(h, r.value)
    ensures r.Ok? && manage.Some? ==> r.value.points == manage.value
    ensures r.Ok? && manage.Some? && Sound(h) ==> forall p :: p in manage.value ==> Contains(h, r.value, p)
    ensures r.Ok? && manage.Some? ==> forall i :: 0 <= i < |manage.value| ==> h.keyfor(manage.value[i]) in r.value.dict
    ensures r.Ok? && manage.Some? ==>
      forall k :: k in r.value.dict ==> forall j :: 0 <= j < r.value.dict[k] ==> h.keyfor(manage.value[j]) != k
    ensures r.Ok? && manage.None? && iterable.Some? ==> r.value == Update(h, Empty(), iterable.value)
    ensures r.Ok? && manage.None? && iterable.None? ==> r.value == Empty()
    ensures r.Ok? && manage.None? ==> forall p :: p in r.value.points ==> iterable.Some? && p in iterable.value
    ensures r.Ok? && manage.None? && iterable.Some? && Sound(h) ==>
      forall p :: p in iterable.value ==> Contains(h, r.value, p)
  {
    if manage.Some? {
      if iterable.Some? {
        return Err(AssertionError);
      }
      var s := Managed(h, manage.value);
      r := Ok(s);
    } else if iterable.Some? {
      var s := Update(h, Empty(), iterable.value);
      if Sound(h) {
        UpdateContains(h, Empty(), iterable.value);
      }
      r := Ok(s);
    } else {
      r := Ok(Empty());
    }
  }
}
