# Spatial hashing and connectivity of pymadcad, in Dafny

This project models `madcad/hashing.py` of pymadcad and proves properties of the model. That module holds:

- **Connectivity helpers** over integer point indices:
  - `edgekey`, `facekeyo`, `arrangeface` and `arrangeedge`;
  - the tables `connpp`, `connef`, `connpe` and `connexity`;
  - `suites`, which chains edges into polylines and cuts them where they cross.
- **`Asso`**: a multimap stored as a flat dictionary from `(slot, key)` to value. The values of a key sit in slots `0, 1, 2, …` with no gap.
- **`PointSet`**: a growing buffer of points, indexed by the grid cell each point falls in. A query looks in the eight cells within half a cell, less a tolerance, of it. So a point that is that close, on every axis, to a stored point is found. Adding it changes nothing and returns the index stored under its first occupied candidate cell, which may be another nearby point's (`PointSets.VoxelsMerge`). Points farther apart may get distinct indices even when they are less than a cell apart.
- **`PositionMap`**: a dictionary from grid cell to the list of objects whose primitive covers that cell.

Modules:

| module | file | content |
|---|---|---|
| `Failures` | failures.dfy | the exceptions raised (`KeyError`, `IndexError`, `AssertionError`), `Option` and `Result` |
| `Collections` | collections.dfy | sequence and multiset helpers shared by the others |
| `Grid` | grid.dfy | grid cells; the cell of a point and its eight-cell neighbourhood, over exact reals |
| `Asso` | asso.dfy | the `Asso` table and its abstraction `Values(t, key)`, the list a key's slots hold |
| `Connectivity` | connectivity.dfy | `edgekey` … `connexity` |
| `Suites` | suites.dfy | `suites`: assembly of edges, then cutting |
| `PointSets` | pointsets.dfy | `PointSet` over abstract key functions, and their exact-real instance |
| `PositionMaps` | positionmaps.dfy | `PositionMap` over an abstract rasterisation |

How the model represents the source:

- Python exceptions become `Err` values of `Result`.
- Mutation becomes a function or method that returns the new state.
- The floating-point key functions become function-valued parameters.
  - `PointSet` takes `keyfor` and `keysfor`. The set-like properties assume `keyfor(p) in keysfor(p)` (`PointSets.Sound`).
  - `PointSets.Voxels` gives the source's own formulas, read over exact reals with a tolerance `eps` between 0 and 1/2. Its contract proves the assumption for them.
  - `PositionMap` takes `keysfor`, the cells a primitive covers, in the order the rasteriser yields them.

Where the documentation and the code disagree, the model follows the code:

- The docstring of `facekeyo` promises "a key for an oriented face". The code returns `(b, c, a)` whenever `a >= b`, so two rotations of one oriented face can get different keys; see Findings.
  - `Connectivity.FaceKeyO` models the code as written.
  - `Connectivity.FaceKeyMin` is the corrected key.
- `PositionMap.__contains__` tests whether the first object yielded is not `None`. The model has no `None` objects, so it reads "`get` yields at least one object".

## Model

| member | source | states |
|---|---|---|
| Connectivity.EdgeKey | madcad/hashing.py:18-23 | the key is one of the two orientations of the edge, with the smaller index first |
| Connectivity.EdgeKeyIdentifiesEdge | madcad/hashing.py:18-23 | two edges get the same key exactly when they join the same two points, in either direction |
| Connectivity.FaceKeyO | madcad/hashing.py:26-33 | as written, the key is a rotation of the face, so it keeps the winding |
| Connectivity.FaceKeyONotCanonical | madcad/hashing.py:26-33 | (0,2,1) and its rotation (1,0,2) get different keys, (1,0,2) and (0,2,1); the key does not identify an oriented face |
| Connectivity.FaceKeyMin | madcad/hashing.py:26-33 | corrected key: a rotation of the face that starts at its smallest index |
| Connectivity.FaceKeyMinCanonical | madcad/hashing.py:26-33 | for a face of three distinct points, two faces get the same corrected key exactly when one is a rotation of the other |
| Connectivity.ArrangeFace | madcad/hashing.py:36-43 | the result is a rotation of the face; it starts with p when p is a corner, and is the face unchanged otherwise |
| Connectivity.ArrangeEdge | madcad/hashing.py:46-51 | the result is the edge or its reverse; it starts with p when p is an end, and is the edge unchanged otherwise |
| Connectivity.Link | madcad/hashing.py:61-65 | one step of connpp adds exactly the link a→b, without duplicating a neighbour and without leaving an empty list |
| Connectivity.NgonLinksMeaning | madcad/hashing.py:54-67 | the links gathered from the first n polygons are exactly the pairs of cyclically consecutive indices in them |
| Connectivity.ConnPP | madcad/hashing.py:54-67 | b is listed under a exactly when a and b are cyclically consecutive in some polygon, in either order; neighbour lists are non-empty and duplicate-free; adjacency is symmetric |
| Connectivity.LastFace | madcad/hashing.py:70-76 | the face index found holds the directed edge and no later face does; no index means no face holds it |
| Connectivity.FileFace | madcad/hashing.py:73-75 | the three directed edges of the face now map to i, and every other entry is kept |
| Connectivity.ConnEF | madcad/hashing.py:70-76 | the keys are exactly the directed edges of the faces; each maps to a face holding it, and no later face holds it (last write wins) |
| Connectivity.Connexity | madcad/hashing.py:88-94 | a point has an entry exactly when it occurs in some link, and the entry is its number of occurrences over all links |
| Connectivity.AddEdge | madcad/hashing.py:82-84 | registering edge i appends i under each of its points, once per occurrence, and leaves the slot table gap-free |
| Connectivity.IncidentCount | madcad/hashing.py:79-85 | the edge indices listed for a point number its occurrences over all edges |
| Connectivity.ConnPE | madcad/hashing.py:79-85 | the Asso lists under each point the indices of the edges holding it, in increasing order and once per occurrence; the count equals the point's occurrences |
| Suites.Attach | madcad/hashing.py:117-127 | an edge extends the suite exactly when it meets the suite's first or last point as the branch order allows; the suite grows by one point at one end and keeps the rest |
| Suites.AttachBag | madcad/hashing.py:117-128 | attaching an edge adds exactly that edge, compared as orientation requires, to the suite's edges |
| Suites.Scan | madcad/hashing.py:116-130 | the scan returns the first index of the pool whose edge attaches, every earlier edge not attaching; no index means no edge of the pool attaches |
| Suites.Extend | madcad/hashing.py:115-130 | one pass moves at most one edge from the pool into the suite, conserving the edges; the edge moved is the first pool edge that attaches, spliced on by `Attach` and removed from the pool at its index; when nothing moved, no pool edge attaches |
| Suites.Grow | madcad/hashing.py:112-132 | the suite has at least two points and at least one edge left the pool; suite edges plus remaining edges are the pool's edges; it stops only on a closed loop when looping, or when no remaining edge attaches |
| Suites.Assemble | madcad/hashing.py:108-133 | every suite has at least two points; the suites' consecutive pairs are exactly the input edges, compared as orientation requires; each suite is closed into a loop when looping, or no edge of the suites built after it attaches to either of its ends |
| Suites.FindCut | madcad/hashing.py:141-145 | the cut position is the first interior point whose count exceeds 1; no position means no interior point has such a count |
| Suites.CutPoints | madcad/hashing.py:141-145 | cutting suite k at position i duplicates exactly the point at i and leaves every other point's count alone |
| Suites.CutPairs | madcad/hashing.py:141-145 | cutting a suite in two keeps exactly its edges |
| Suites.CutSuite | madcad/hashing.py:141-145 | cutting one suite keeps the earlier suites and all edges, leaves no interior point of count above 1 before the cut, and shrinks the part left to scan |
| Suites.Cut | madcad/hashing.py:135-145 | after cutting, every interior point occurred at most once originally and occurs exactly once overall; points of count at most one keep their count; edges are preserved; suites keep at least two points |
| Suites.InteriorOnce | madcad/hashing.py:135-145 | an interior point of count at most one, whose count cutting preserved, occurs exactly once in the cut suites |
| Suites.BuildSuites | madcad/hashing.py:97-146 | suites have at least two points; their edges are the input edges, as a multiset when oriented and up to direction otherwise; the result is a possible assembly (`Assembled`: each suite is a closed loop when looping, or no edge of a later suite attaches to its ends) or, with cut, a cut of one (`CutOf`: same edges, and interior points occur once) |
| Asso.SlotsAreRange | madcad/hashing.py:659-667 | in a gap-free table the slots of a key are exactly 0 … count-1 |
| Asso.Empty | madcad/hashing.py:564-570 | a new Asso holds no value for any key |
| Asso.Create | madcad/hashing.py:564-570 | building from pairs lists under each key its values in the order the pairs give them |
| Asso.Connexity | madcad/hashing.py:659-667 | the count returned is the number of values of the key, and the slot at that count is free |
| Asso.Contains | madcad/hashing.py:669-671 | a key is present exactly when it has at least one value |
| Asso.Get | madcad/hashing.py:572-580 | the values read from slot 0 upwards are the key's values, each the value of its slot |
| Asso.Add | madcad/hashing.py:582-590 | the value goes to the first free slot, is appended to the key's values, other keys are untouched, and the table stays gap-free |
| Asso.SwapWithLast | madcad/hashing.py:598-600 | moving the last value into slot j and freeing the last slot removes the value at j from the key's values, the last taking its place |
| Asso.Remove | madcad/hashing.py:592-603 | KeyError exactly when the value is absent; otherwise one occurrence (the last) is removed by swapping in the last value, other keys are untouched and the table stays gap-free |
| Asso.RemoveUndoesAdd | madcad/hashing.py:582-603 | removing a value just added takes it back out of the last slot, so the key's values are those before the add |
| Asso.Discard | madcad/hashing.py:605-616 | every occurrence of the value is removed, the other values are kept with their multiplicities, other keys are untouched, and the table stays gap-free |
| Asso.Update | madcad/hashing.py:618-623 | each key's values gain the pairs' values for that key, in order |
| Grid.CellOf | madcad/hashing.py:460-465 | the cell key is the floor of each coordinate divided by the cell size, rounding toward minus infinity |
| Grid.Neighbourhood | madcad/hashing.py:467-483 | the candidate cells of a point are eight cells; with a tolerance between 0 and 1/2 they include the point's own cell and all touch it |
| Grid.CornersMembership | madcad/hashing.py:474-483 | the eight cells listed are exactly those whose coordinates each come from the low or the high corner |
| Grid.FloorBetween | madcad/hashing.py:470-473 | shifted by half a cell less the tolerance, down or up, a coordinate keeps its own cell in one of the two shifts; both stay within one cell of it |
| Grid.FloorWithin | madcad/hashing.py:470-473 | a coordinate within half a cell less the tolerance of the query has its cell among the two shifted cells of the query |
| Grid.NeighbourhoodReaches | madcad/hashing.py:460-483 | a point within half a cell less the tolerance of the query, on every axis, has its own cell among the query's candidate cells |
| PointSets.Voxels | madcad/hashing.py:460-483 | the source's key functions give eight candidate cells; a point is looked for in the cell it would be stored in, and only in cells touching it |
| PointSets.VoxelsMerge | madcad/hashing.py:495-505 | a point near a stored point is contained; adding it leaves the set unchanged and returns what `GetItem` returns, the index under its first occupied candidate cell |
| PointSets.FirstHit | madcad/hashing.py:524-529 | the position found is the first key present; no position means no key is present |
| PointSets.Contains | madcad/hashing.py:524-529 | true exactly when some cell where an equivalent point may be holds a point |
| PointSets.GetItem | madcad/hashing.py:531-536 | IndexError exactly when the point is not contained; otherwise the index under the first occupied cell, a point of the buffer in one of those cells |
| PointSets.Add | madcad/hashing.py:495-505 | a contained point gives back the index getitem finds and changes nothing; a new point is appended and stored under its own cell; the buffer only grows and indices stay valid |
| PointSets.AddThenGet | madcad/hashing.py:495-505 | after add the point is contained, and getitem returns the index add returned |
| PointSets.AddIdempotent | madcad/hashing.py:495-505 | adding the same point a second time changes nothing and returns the same index |
| PointSets.Remove | madcad/hashing.py:507-516 | IndexError exactly when the point is not contained; otherwise the index getitem finds is returned and only its cell is dropped; discard afterwards gives what discard gives directly |
| PointSets.RemoveAfterAdd | madcad/hashing.py:495-516 | removing a point just added returns its new index and restores the former index, the buffer keeping the point |
| PointSets.Discard | madcad/hashing.py:518-522 | exactly the cells where an equivalent point may be are dropped, so the point is no longer contained; indices stay valid |
| PointSets.Update | madcad/hashing.py:485-488 | the buffer only grows, by points of the iterable; existing cells keep their index; indices stay valid |
| PointSets.UpdateContains | madcad/hashing.py:485-488 | after update every point of the iterable is contained |
| PointSets.DifferenceUpdate | madcad/hashing.py:490-493 | the buffer is unchanged and cells are only dropped |
| PointSets.DifferenceUpdateExcludes | madcad/hashing.py:490-493 | after difference_update no point of the iterable is contained |
| PointSets.Managed | madcad/hashing.py:450-454 | indexing a managed buffer stores every point's cell, each under the lowest index of a point in it |
| PointSets.Create | madcad/hashing.py:447-458 | AssertionError exactly when both a managed buffer and an iterable are given; a managed buffer is kept as the buffer, every point's cell is filed, each under the lowest index of a point in it; otherwise the set is the empty set updated with the iterable's points in order (so its buffer holds points of the iterable, all contained), or empty without an iterable |
| PositionMaps.File | madcad/hashing.py:358-363 | one step of add appends the object to the list of one cell, creating it if needed, and leaves other cells alone |
| PositionMaps.FileAll | madcad/hashing.py:354-363 | every cell's list gains the object once per time the keys name that cell; the cells are the old ones plus the keys |
| PositionMaps.Add | madcad/hashing.py:354-363 | each covered cell's list gains the object once per time the primitive covers it; other lists are unchanged; lists stay non-empty |
| PositionMaps.Gather | madcad/hashing.py:369-372 | an object is yielded exactly when it is filed under one of the keys |
| PositionMaps.Get | madcad/hashing.py:365-372 | an object is yielded exactly when it is filed under a cell the primitive covers |
| PositionMaps.Contains | madcad/hashing.py:374-376 | true exactly when a covered cell holds an object; for a map without empty lists, when a covered cell is present |
| PositionMaps.AddThenGet | madcad/hashing.py:354-376 | after add, get yields the object and contains holds, when the primitive covers some cell |
| PositionMaps.UpdateMap | madcad/hashing.py:339-345 | AssertionError exactly when the cell sizes differ; otherwise each cell's list is this map's list followed by the other's |
| PositionMaps.GatherMerge | madcad/hashing.py:341-345 | in a merged map, get yields the objects of both maps with their multiplicities |
| PositionMaps.UpdateMapContains | madcad/hashing.py:339-345 | after merging, get yields both maps' objects, and contains holds exactly when it holds in one of them |
| PositionMaps.UpdatePairs | madcad/hashing.py:346-348 | each cell's list gains, in order, the objects of the pairs whose primitive covers it, once per covering |
| PositionMaps.UpdatePairsThenGet | madcad/hashing.py:346-348 | after update with pairs, get at a pair's primitive yields its object, when the primitive covers some cell |
| PositionMaps.Update | madcad/hashing.py:337-352 | AssertionError only for a map of another cell size; otherwise the lists are extended as the merge or the pairs require |
| PositionMaps.Empty | madcad/hashing.py:164-169 | a new map has the given cell size and no cell |
| PositionMaps.Create | madcad/hashing.py:164-169 | the new map has the given cell size; creating from a map fails exactly when that map's cell size differs; without an iterable the map is empty; from pairs every cell's list is that cell's share of the pairs, in order, and no list is empty; from a map every cell's list is the other map's |
| PositionMaps.ContributionsMember | madcad/hashing.py:346-363 | an object is filed under a cell by the pairs exactly when some pair holds it with a primitive covering that cell |
| PositionMaps.CreateFromPairsGet | madcad/hashing.py:164-169 | in a map created from pairs, get finds an object exactly when some pair holds it with a primitive sharing a cell with the one asked about |
| PositionMaps.CreateFromMap | madcad/hashing.py:164-169 | creating from a map of the same cell size gives back that map's contents |

## Left out

- Floating point: coordinates are exact reals in `Grid`, and `NUMPREC` is the parameter `eps`. Rounding in `glm.floor` and the 64-bit integer conversion of cell keys are not modelled.
- Rasterisation of segments and triangles (`PositionMap.keysfor`, `core.rasterize_segment`, `core.rasterize_triangle`) is not modelled. It is the parameter `keysfor`: floating-point geometry the model does not need for the map's own properties. The first, overridden `keysfor` definition is dead code.
- The point branch of the live `PositionMap.keysfor` is not modelled, because it uses an undefined name and fails. Neither is its `TypeError` for other primitive types.
- `PositionMap.display`, `_display`, `options` and `meshcellsize` are not modelled: they concern display and a float heuristic.
- `PositionMap.__contains__`: a stored `None` would make the source answer False; the model has no `None` objects.
- Aliasing is not modelled: `PointSet(manage=…)` shares the caller's list, and `PositionMap.update` from another map shares its lists. The model has value semantics.
- `PointSet.__add__` and `__sub__` are not modelled, because they build an undefined `PositionSet`. The cell size is folded into the key functions.
- `PointSets.Create`: the `if iterable:` truth test is modelled for sequences only. An empty iterable and no iterable give the same empty set.
- `Asso(Asso)` is not modelled, because it reads a missing attribute. `Asso.__delitem__` is not modelled, because it reads an unbound name. `Asso.keys` is not modelled, because it unpacks each `(slot, key)` dictionary key into slot and key and then indexes the integer slot, which raises TypeError on any non-empty `Asso`. `__add__` copies the table and then calls `update`; with value semantics that is `Asso.Update` applied to the original, so it has no member of its own. `clear` empties the table, giving `Asso.Empty`. `items` and `values` iterate the dictionary in insertion order, which the model's map does not keep; the abstraction `Values` gives their contents per key. `__repr__` is text formatting.
- `Asso.Update` takes pairs. A dictionary argument is its `items()`, in insertion order.
- Suites: input edges are 2-point tuples. Longer polyline pieces, which the source splices whole, are not modelled.
- Suites.BuildSuites: the result is stated up to the edge multiset. The exact order in which suites are produced is not stated. After a cut, the stop condition is stated for the assembly the pieces were cut from, not for the pieces themselves, which share their cut points by design.
- `test_asso` and the demo scripts are not modelled: they print and need no model.

## Findings

| source | as written | input that shows it | evidently intended | confidence | as-written member | corrected member |
|---|---|---|---|---|---|---|
| madcad/hashing.py:26-33 | `facekeyo` returns `(b, c, a)` whenever `a >= b`, and `(c, a, b)` when `a < b` but `b >= c` | `facekeyo(0, 2, 1)` gives `(1, 0, 2)`, but its rotation `facekeyo(1, 0, 2)` gives `(0, 2, 1)`: one oriented face, two keys | the rotation starting at the smallest index, so all rotations of an oriented face share one key | not executed | Connectivity.FaceKeyONotCanonical | Connectivity.FaceKeyMinCanonical |
