/** The connectivity tools of madcad/hashing.py: canonical keys for edges and
    faces, rotations of a face or edge to a given point, and the adjacency
    tables built from index tuples. Point indices are integers. */
module Connectivity {
  import opened Collections
  import opened Failures
  import Asso

  type Edge = (int, int)
  type Face = (int, int, int)

  /** `edgekey`: the key of a non-directional edge, lower index first. */
  function EdgeKey(a: int, b: int): (r: Edge)
    ensures r.0 <= r.1
    ensures r == (a, b) || r == (b, a)
  {
    if a < b then (a, b) else (b, a)
  }

  /** Two edges get the same key exactly when they join the same two points. */
  lemma EdgeKeyIdentifiesEdge(a: int, b: int, c: int, d: int)
    ensures EdgeKey(a, b) == EdgeKey(c, d) <==> (a, b) == (c, d) || (a, b) == (d, c)
  {
  }

  /** r is one of the three cyclic rotations of f: the same oriented face. */
  predicate IsRotation(r: Face, f: Face)
  {
    r == f || r == (f.1, f.2, f.0) || r == (f.2, f.0, f.1)
  }

  /** `facekeyo`, as written: the key of an oriented face. It always returns a
      rotation of (a, b, c), but not always the same rotation for the three
      rotations of one face (see FaceKeyONotCanonical). */
  function FaceKeyO(a: int, b: int, c: int): (r: Face)
    ensures IsRotation(r, (a, b, c))
  {
    if a < b && b < c then (a, b, c)
    else if a < b then (c, a, b)
    else (b, c, a)
  }

  /** (0, 2, 1) and (1, 0, 2) are one oriented face, yet `facekeyo` gives them different keys. */
  lemma FaceKeyONotCanonical()
    ensures IsRotation((1, 0, 2), (0, 2, 1))
    ensures FaceKeyO(0, 2, 1) == (1, 0, 2)
    ensures FaceKeyO(1, 0, 2) == (0, 2, 1)
    ensures FaceKeyO(0, 2, 1) != FaceKeyO(1, 0, 2)
  {
  }

  /** The oriented-face key as intended: the rotation that starts with the smallest index. */
  function FaceKeyMin(a: int, b: int, c: int): (r: Face)
    ensures IsRotation(r, (a, b, c))
    ensures r.0 <= r.1 && r.0 <= r.2
  {
    if a <= b && a <= c then (a, b, c)
    else if b <= c then (b, c, a)
    else (c, a, b)
  }

  /** For a face of three distinct points, two index triples get the same key
      exactly when they are rotations of each other. */
  lemma FaceKeyMinCanonical(f: Face, g: Face)
    requires f.0 != f.1 && f.1 != f.2 && f.0 != f.2
    ensures FaceKeyMin(f.0, f.1, f.2) == FaceKeyMin(g.0, g.1, g.2) <==> IsRotation(g, f)
  {
    if IsRotation(g, f) {
      assert FaceKeyMin(f.0, f.1, f.2) == FaceKeyMin(g.0, g.1, g.2);
    }
    if FaceKeyMin(f.0, f.1, f.2) == FaceKeyMin(g.0, g.1, g.2) {
      assert IsRotation(g, f);
    }
  }

  /** `arrangeface`: the face rotated so that p comes first, when p is one of its points. */
  function ArrangeFace(f: Face, p: int): (r: Face)
    ensures IsRotation(r, f)
    ensures p == f.0 || p == f.1 || p == f.2 ==> r.0 == p
    ensures p != f.0 && p != f.1 && p != f.2 ==> r == f
  {
    if p == f.1 then (f.1, f.2, f.0)
    else if p == f.2 then (f.2, f.0, f.1)
    else f
  }

  /** `arrangeedge`: the edge turned so that p comes first, when p is one of its ends. */
  function ArrangeEdge(e: Edge, p: int): (r: Edge)
    ensures r == e || r == (e.1, e.0)
    ensures p == e.0 || p == e.1 ==> r.0 == p
    ensures p != e.0 && p != e.1 ==> r == e
  {
    if p == e.1 then (e.1, e.0) else e
  }

  // ---- point to point connectivity ----

  /** b is listed as a neighbour of a. */
  predicate Adjacent(conn: map<int, seq<int>>, a: int, b: int)
  {
    a in conn && b in conn[a]
  }

  /** Every neighbour list is non-empty and lists each neighbour once. */
  ghost predicate WellFormed(conn: map<int, seq<int>>)
  {
    forall a :: a in conn ==> |conn[a]| > 0 && NoDup(conn[a])
  }

  /** The position before i in a closed loop of indices (Python's loop[i - 1]). */
  function Prev(loop: seq<int>, i: nat): nat
    requires i < |loop|
  {
    if i == 0 then |loop| - 1 else i - 1
  }

  /** a and b are the two ends, in either order, of the loop's side ending at position i. */
  ghost predicate Consecutive(loop: seq<int>, i: nat, a: int, b: int)
    requires i < |loop|
  {
    (loop[Prev(loop, i)] == a && loop[i] == b) || (loop[i] == a && loop[Prev(loop, i)] == b)
  }

  /** a and b follow each other, wrap-around included, in some polygon. */
  ghost predicate Neighbours(ngons: seq<seq<int>>, a: int, b: int)
  {
    exists k, i :: 0 <= k < |ngons| && 0 <= i < |ngons[k]| && Consecutive(ngons[k], i, a, b)
  }

  /** The directed links registered by the first n positions of loop. */
  ghost function LoopLinks(loop: seq<int>, n: nat): set<Edge>
    requires n <= |loop|
  {
    if n == 0 then {}
    else LoopLinks(loop, n - 1) + {(loop[Prev(loop, n - 1)], loop[n - 1]), (loop[n - 1], loop[Prev(loop, n - 1)])}
  }

  /** The directed links registered by the first n polygons. */
  ghost function NgonLinks(ngons: seq<seq<int>>, n: nat): set<Edge>
    requires n <= |ngons|
  {
    if n == 0 then {} else NgonLinks(ngons, n - 1) + LoopLinks(ngons[n - 1], |ngons[n - 1]|)
  }

  lemma {:induction false} LoopLinksMeaning(loop: seq<int>, n: nat, a: int, b: int)
    requires n <= |loop|
    ensures (a, b) in LoopLinks(loop, n) <==> exists i :: 0 <= i < n && Consecutive(loop, i, a, b)
  {
    if n > 0 {
      LoopLinksMeaning(loop, n - 1, a, b);
      if Consecutive(loop, n - 1, a, b) {
        assert (a, b) in LoopLinks(loop, n);
      }
    }
  }

  lemma {:induction false} NgonLinksMeaning(ngons: seq<seq<int>>, n: nat, a: int, b: int)
    requires n <= |ngons|
    ensures (a, b) in NgonLinks(ngons, n) <==>
            exists k, i :: 0 <= k < n && 0 <= i < |ngons[k]| && Consecutive(ngons[k], i, a, b)
  {
    if n > 0 {
      NgonLinksMeaning(ngons, n - 1, a, b);
      LoopLinksMeaning(ngons[n - 1], |ngons[n - 1]|, a, b);
      if exists k, i :: 0 <= k < n && 0 <= i < |ngons[k]| && Consecutive(ngons[k], i, a, b) {
        var k, i :| 0 <= k < n && 0 <= i < |ngons[k]| && Consecutive(ngons[k], i, a, b);
        if k < n - 1 {
          assert (a, b) in NgonLinks(ngons, n - 1);
        }
      }
    }
  }

  /** Register b as a neighbour of a unless it is listed already. */
  function Link(conn: map<int, seq<int>>, a: int, b: int): (r: map<int, seq<int>>)
    requires WellFormed(conn)
    ensures WellFormed(r)
    ensures forall x, y :: Adjacent(r, x, y) <==> Adjacent(conn, x, y) || (x == a && y == b)
    ensures forall x :: x in r <==> x in conn || x == a
  {
    if a !in conn then conn[a := [b]]
    else if b !in conn[a] then conn[a := conn[a] + [b]]
    else conn
  }

  /** `connpp`: point to point connectivity of polygons (tuples of 2 to n indices). */
  method ConnPP(ngons: seq<seq<int>>) returns (conn: map<int, seq<int>>)
    ensures WellFormed(conn)
    ensures forall a, b :: Adjacent(conn, a, b) <==> Neighbours(ngons, a, b)
    ensures forall a, b :: Adjacent(conn, a, b) ==> Adjacent(conn, b, a)
  {
    conn := map[];
    for k := 0 to |ngons|
      invariant WellFormed(conn)
      invariant forall a, b :: Adjacent(conn, a, b) <==> (a, b) in NgonLinks(ngons, k)
    {
      var loop := ngons[k];
      for i := 0 to |loop|
        invariant WellFormed(conn)
        invariant forall a, b :: Adjacent(conn, a, b) <==> (a, b) in NgonLinks(ngons, k) + LoopLinks(loop, i)
      {
        var prev := loop[if i == 0 then |loop| - 1 else i - 1];
        conn := Link(conn, prev, loop[i]);
        conn := Link(conn, loop[i], prev);
      }
    }
    forall a, b
      ensures Adjacent(conn, a, b) <==> Neighbours(ngons, a, b)
    {
      NgonLinksMeaning(ngons, |ngons|, a, b);
    }
    forall a, b | Adjacent(conn, a, b)
      ensures Adjacent(conn, b, a)
    {
      var k, i :| 0 <= k < |ngons| && 0 <= i < |ngons[k]| && Consecutive(ngons[k], i, a, b);
      assert Consecutive(ngons[k], i, b, a);
    }
  }

  // ---- oriented edge to face connectivity ----

  /** The three directed edges of a face, following its winding. */
  function FaceEdges(f: Face): set<Edge>
  {
    {(f.0, f.1), (f.1, f.2), (f.2, f.0)}
  }

  /** The last face holding the directed edge e, if any. */
  function LastFace(faces: seq<Face>, e: Edge): (r: Option<nat>)
    ensures r.Some? ==> r.value < |faces| && e in FaceEdges(faces[r.value])
    ensures r.Some? ==> forall j :: r.value < j < |faces| ==> e !in FaceEdges(faces[j])
    ensures r.None? ==> forall j :: 0 <= j < |faces| ==> e !in FaceEdges(faces[j])
    decreases |faces|
  {
    if |faces| == 0 then None
    else if e in FaceEdges(faces[|faces| - 1]) then Some(|faces| - 1)
    else LastFace(faces[..|faces| - 1], e)
  }

  /** `connef`: oriented edge to face connectivity. A directed edge shared by
      several faces maps to the last of them. */
  method ConnEF(faces: seq<Face>) returns (conn: map<Edge, nat>)
    ensures forall e :: e in conn <==> exists i :: 0 <= i < |faces| && e in FaceEdges(faces[i])
    ensures forall e :: e in conn ==> conn[e] < |faces| && e in FaceEdges(faces[conn[e]])
    ensures forall e, i :: e in conn && conn[e] < i < |faces| ==> e !in FaceEdges(faces[i])
  {
    conn := map[];
    for i := 0 to |faces|
      invariant forall e :: e in conn <==> LastFace(faces[..i], e).Some?
      invariant forall e :: e in conn ==> conn[e] == LastFace(faces[..i], e).value
    {
      assert faces[..i + 1][..i] == faces[..i];
      conn := FileFace(conn, faces[i], i);
    }
    assert faces[..|faces|] == faces;
    forall e | LastFace(faces, e).None?
      ensures forall i :: 0 <= i < |faces| ==> e !in FaceEdges(faces[i])
    {
    }
  }

  /** One step of `connef`: the three edges of face i now map to i. */
  function FileFace(conn: map<Edge, nat>, f: Face, i: nat): (r: map<Edge, nat>)
    ensures forall e :: e in r <==> e in conn || e in FaceEdges(f)
    ensures forall e :: e in r ==> r[e] == if e in FaceEdges(f) then i else conn[e]
  {
    conn[(f.0, f.1) := i][(f.1, f.2) := i][(f.2, f.0) := i]
  }

  // ---- point to edge connectivity and point connexity ----

  /** `connexity`: the number of links referencing each point. */
  method Connexity(links: seq<seq<int>>) returns (reach: map<int, nat>)
    ensures forall p :: p in reach <==> Occ(links, p) > 0
    ensures forall p :: p in reach ==> reach[p] == Occ(links, p)
  {
    reach := map[];
    for i := 0 to |links|
      invariant forall p :: p in reach <==> Occ(links[..i], p) > 0
      invariant forall p :: p in reach ==> reach[p] == Occ(links[..i], p)
    {
      var l := links[i];
      for j := 0 to |l|
        invariant forall p :: p in reach <==> Occ(links[..i], p) + Multiplicity(l[..j], p) > 0
        invariant forall p :: p in reach ==> reach[p] == Occ(links[..i], p) + Multiplicity(l[..j], p)
      {
        assert l[..j + 1] == l[..j] + [l[j]];
        reach := reach[l[j] := (if l[j] in reach then reach[l[j]] else 0) + 1];
      }
      assert l[..|l|] == l;
      assert links[..i + 1][..i] == links[..i];
    }
    assert links[..|links|] == links;
  }

  /** The edge indices registered under point p by `connpe`: index i once per
      occurrence of p in edges[i], in edge order. */
  ghost function Incident(edges: seq<seq<int>>, p: int): seq<nat>
  {
    if |edges| == 0 then []
    else Incident(edges[..|edges| - 1], p) + Repeat(|edges| - 1, Multiplicity(edges[|edges| - 1], p))
  }

  lemma {:induction false} IncidentCount(edges: seq<seq<int>>, p: int)
    ensures |Incident(edges, p)| == Occ(edges, p)
  {
    if |edges| > 0 {
      IncidentCount(edges[..|edges| - 1], p);
    }
  }

  lemma AddEdgeStep(conn: Asso.Table<int, nat>, before: Asso.Table<int, nat>, after: Asso.Table<int, nat>, edge: seq<int>, j: nat, i: nat)
    requires j < |edge|
    requires Asso.GapFree(conn) && Asso.GapFree(before) && Asso.GapFree(after)
    requires forall p :: Asso.Values(before, p) == Asso.Values(conn, p) + Repeat(i, Multiplicity(edge[..j], p))
    requires Asso.Values(after, edge[j]) == Asso.Values(before, edge[j]) + [i]
    requires forall p :: p != edge[j] ==> Asso.Values(after, p) == Asso.Values(before, p)
    ensures forall p :: Asso.Values(after, p) == Asso.Values(conn, p) + Repeat(i, Multiplicity(edge[..j + 1], p))
  {
    assert edge[..j + 1] == edge[..j] + [edge[j]];
    forall p
      ensures Asso.Values(after, p) == Asso.Values(conn, p) + Repeat(i, Multiplicity(edge[..j + 1], p))
    {
      MultiplicitySnoc(edge[..j], edge[j], p);
      var n := Multiplicity(edge[..j], p);
      if p == edge[j] {
        var a, r := Asso.Values(conn, p), Repeat(i, n);
        assert Repeat(i, n + 1) == r + [i];
        assert a + r + [i] == a + (r + [i]);
      }
    }
  }

  /** The inner loop of `connpe`: register edge index i under every point of edge. */
  method AddEdge(conn: Asso.Table<int, nat>, edge: seq<int>, i: nat) returns (conn': Asso.Table<int, nat>)
    requires Asso.GapFree(conn)
    ensures Asso.GapFree(conn')
    ensures forall p :: Asso.Values(conn', p) == Asso.Values(conn, p) + Repeat(i, Multiplicity(edge, p))
  {
    conn' := conn;
    for j := 0 to |edge|
      invariant Asso.GapFree(conn')
      invariant forall p :: Asso.Values(conn', p) == Asso.Values(conn, p) + Repeat(i, Multiplicity(edge[..j], p))
    {
      ghost var before := conn';
      conn' := Asso.Add(conn', edge[j], i);
      AddEdgeStep(conn, before, conn', edge, j, i);
    }
    assert edge[..|edge|] == edge;
  }

  /** `connpe`: point to edge connectivity, as an Asso from point to edge indices. */
  method ConnPE(edges: seq<seq<int>>) returns (conn: Asso.Table<int, nat>)
    ensures Asso.GapFree(conn)
    ensures forall p :: Asso.Values(conn, p) == Incident(edges, p)
    ensures forall p :: |Asso.Values(conn, p)| == Occ(edges, p)
  {
    conn := Asso.Empty();
    for i := 0 to |edges|
      invariant Asso.GapFree(conn)
      invariant forall p :: Asso.Values(conn, p) == Incident(edges[..i], p)
    {
      assert edges[..i + 1][..i] == edges[..i];
      conn := AddEdge(conn, edges[i], i);
    }
    assert edges[..|edges|] == edges;
    forall p
      ensures |Asso.Values(conn, p)| == Occ(edges, p)
    {
      IncidentCount(edges, p);
    }
  }
}
