/** Addresses of the cubic cells of a spatial hash, and how a point finds them.
    Coordinates are exact reals here; the source computes them in floating point. */
module Grid {

  /** A cell key: the integer triple floor(position / cellsize). */
  type Cell = (int, int, int)

  /** A point of space. */
  type Vec3 = (real, real, real)

  /** The cell holding point p (`PointSet.keyfor`). */
  function CellOf(p: Vec3, cellsize: real): (k: Cell)
    requires cellsize != 0.0
    ensures k.0 as real <= p.0 / cellsize < k.0 as real + 1.0
    ensures k.1 as real <= p.1 / cellsize < k.1 as real + 1.0
    ensures k.2 as real <= p.2 / cellsize < k.2 as real + 1.0
  {
    ((p.0 / cellsize).Floor, (p.1 / cellsize).Floor, (p.2 / cellsize).Floor)
  }

  /** The eight cells whose coordinates are each taken from lo or hi, in the order
      `PointSet.keysfor` lists them: x varies fastest, then y, then z. */
  function Corners(lo: Cell, hi: Cell): (r: seq<Cell>)
    ensures |r| == 8
    ensures forall i :: 0 <= i < 8 ==> r[i] == (if i % 2 == 0 then lo.0 else hi.0,
                                                 if i / 2 % 2 == 0 then lo.1 else hi.1,
                                                 if i / 4 == 0 then lo.2 else hi.2)
  {
    [ (lo.0, lo.1, lo.2), (hi.0, lo.1, lo.2), (lo.0, hi.1, lo.2), (hi.0, hi.1, lo.2),
      (lo.0, lo.1, hi.2), (hi.0, lo.1, hi.2), (lo.0, hi.1, hi.2), (hi.0, hi.1, hi.2) ]
  }

  /** A cell is among the corners exactly when each of its coordinates comes from lo or hi. */
  lemma CornersMembership(lo: Cell, hi: Cell, k: Cell)
    ensures k in Corners(lo, hi) <==>
      (k.0 == lo.0 || k.0 == hi.0) && (k.1 == lo.1 || k.1 == hi.1) && (k.2 == lo.2 || k.2 == hi.2)
  {
    var r := Corners(lo, hi);
    if (k.0 == lo.0 || k.0 == hi.0) && (k.1 == lo.1 || k.1 == hi.1) && (k.2 == lo.2 || k.2 == hi.2) {
      var i := (if k.0 == lo.0 then 0 else 1) + (if k.1 == lo.1 then 0 else 2) + (if k.2 == lo.2 then 0 else 4);
      assert r[i] == k;
    }
  }

  /** Two cells touch: they differ by at most one on every axis. */
  predicate Touching(a: Cell, b: Cell)
  {
    a.0 - 1 <= b.0 <= a.0 + 1 && a.1 - 1 <= b.1 <= a.1 + 1 && a.2 - 1 <= b.2 <= a.2 + 1
  }

  /** Two points whose coordinates, in cell units, differ by at most half a
      cell less the tolerance eps on every axis. */
  predicate Near(p: Vec3, q: Vec3, cellsize: real, eps: real)
    requires cellsize != 0.0
  {
    var d := (p.0 / cellsize - q.0 / cellsize, p.1 / cellsize - q.1 / cellsize, p.2 / cellsize - q.2 / cellsize);
    -(0.5 - eps) <= d.0 <= 0.5 - eps && -(0.5 - eps) <= d.1 <= 0.5 - eps && -(0.5 - eps) <= d.2 <= 0.5 - eps
  }

  /** The cells around p that may hold a point closer than half a cell, less the
      tolerance eps (`PointSet.keysfor`): eight cells, among them the point's own
      cell, all touching it. */
  function Neighbourhood(p: Vec3, cellsize: real, eps: real): (r: seq<Cell>)
    requires cellsize != 0.0
    ensures |r| == 8
    ensures 0.0 <= eps <= 0.5 ==> CellOf(p, cellsize) in r
    ensures 0.0 <= eps <= 0.5 ==> forall k :: k in r ==> Touching(CellOf(p, cellsize), k)
  {
    var v := (p.0 / cellsize, p.1 / cellsize, p.2 / cellsize);
    var lo := ((v.0 - 0.5 + eps).Floor, (v.1 - 0.5 + eps).Floor, (v.2 - 0.5 + eps).Floor);
    var hi := ((v.0 + 0.5 - eps).Floor, (v.1 + 0.5 - eps).Floor, (v.2 + 0.5 - eps).Floor);
    var r := Corners(lo, hi);
    assert 0.0 <= eps <= 0.5 ==> CellOf(p, cellsize) in r && forall k :: k in r ==> Touching(CellOf(p, cellsize), k) by {
      if 0.0 <= eps <= 0.5 {
        FloorBetween(v.0, eps);
        FloorBetween(v.1, eps);
        FloorBetween(v.2, eps);
        CornersMembership(lo, hi, CellOf(p, cellsize));
        forall k | k in r
          ensures Touching(CellOf(p, cellsize), k)
        {
          CornersMembership(lo, hi, k);
        }
      }
    }
    r
  }

  /** Shifting by less than half a unit up or down, one of the two shifts keeps the floor. */
  lemma FloorBetween(v: real, eps: real)
    requires 0.0 <= eps <= 0.5
    ensures v.Floor == (v - 0.5 + eps).Floor || v.Floor == (v + 0.5 - eps).Floor
    ensures v.Floor - 1 <= (v - 0.5 + eps).Floor <= v.Floor <= (v + 0.5 - eps).Floor <= v.Floor + 1
  {
    var k := v.Floor;
    if (v - 0.5 + eps).Floor != k {
      assert v - 0.5 + eps < k as real;
      assert k as real <= v + 0.5 - eps < k as real + 1.0;
    }
  }

  /** A value within half a unit less eps of v has its floor among the two shifted floors of v. */
  lemma FloorWithin(v: real, w: real, eps: real)
    requires 0.0 <= eps <= 0.5
    requires -(0.5 - eps) <= w - v <= 0.5 - eps
    ensures w.Floor == (v - 0.5 + eps).Floor || w.Floor == (v + 0.5 - eps).Floor
  {
    var lo, hi := (v - 0.5 + eps).Floor, (v + 0.5 - eps).Floor;
    assert lo as real <= v - 0.5 + eps <= w < w.Floor as real + 1.0;
    assert w.Floor as real <= w <= v + 0.5 - eps < hi as real + 1.0;
    assert hi as real <= v + 0.5 - eps <= (v - 0.5 + eps) + 1.0 < lo as real + 2.0;
  }

  /** A point near q has its own cell among q's neighbourhood: this is how a
      query finds a point stored close to it. */
  lemma NeighbourhoodReaches(q: Vec3, p: Vec3, cellsize: real, eps: real)
    requires cellsize != 0.0 && 0.0 <= eps <= 0.5
    requires Near(p, q, cellsize, eps)
    ensures CellOf(p, cellsize) in Neighbourhood(q, cellsize, eps)
  {
    var v := (q.0 / cellsize, q.1 / cellsize, q.2 / cellsize);
    var lo := ((v.0 - 0.5 + eps).Floor, (v.1 - 0.5 + eps).Floor, (v.2 - 0.5 + eps).Floor);
    var hi := ((v.0 + 0.5 - eps).Floor, (v.1 + 0.5 - eps).Floor, (v.2 + 0.5 - eps).Floor);
    var c := CellOf(p, cellsize);
    FloorWithin(v.0, p.0 / cellsize, eps);
    FloorWithin(v.1, p.1 / cellsize, eps);
    FloorWithin(v.2, p.2 / cellsize, eps);
    assert (c.0 == lo.0 || c.0 == hi.0) && (c.1 == lo.1 || c.1 == hi.1) && (c.2 == lo.2 || c.2 == hi.2);
    CornersMembership(lo, hi, c);
    assert Neighbourhood(q, cellsize, eps) == Corners(lo, hi);
  }
}
