# Planarize: a Dafny model

This project models the core of the Blender "Planarize" add-on (`planarize.py`).
The add-on flattens every polygon of a mesh. It alternates two steps:

- **Normal smoothing** (`get_smoothened_normals`). It builds a vertex-to-faces
  incidence map and a neighbour list per face. Then, over five rounds, it
  replaces the normal of every face that has at least three neighbour entries.
  The new normal is the normalised sum of the three neighbour normals closest
  to the face's current normal. Faces are visited in shuffled order, and each
  update is visible to the faces visited after it.
- **Planarizing pass** (`planarize`). For every vertex it collects one plane
  `(n, n·centre)` per incident non-triangle face. It picks an anchor weight α.
  It then assembles the system "α·I·x = α·orig, then n·x = c per plane",
  solves it by least squares, and writes the result to that vertex.

The operator (`Planarize.execute`) snapshots the original positions once.
It then runs `iterations` passes with base weight `rigidity / 2**i`. When
smoothing is on, it recomputes the smoothed normals before each pass.

Faces and vertices are dense indices. A face is its list of vertex indices,
and vectors are triples of reals. Vertex positions form the one array the
operator changes in place. The host and numeric services are parameters
(datatype `Operator.Host`): a polygon's normal and centre for given
positions, `Vector.normalized()` and `numpy.linalg.lstsq`. The shuffles are
parameters too: one visiting order per round, each a permutation of the
candidate list.

Modules: `Vectors`, `Incidence` (lines 23-26), `Neighbors` (lines 27-31),
`NearestNormals` (the sort and the choice of three, lines 36-38), `Smoothing`
(lines 22-39), `Solver` (lines 42-58) and `Operator` (lines 61-90).

## Model

| member | source | states |
|---|---|---|
| `Incidence.BuildIncidence` | planarize.py:23-26 | the nested loop fills, for every vertex, the list `Incident(faces, v)`: each face appended once per slot holding the vertex, faces taken in enumeration order |
| `Incidence.IncidentCount` | planarize.py:24-26 | face `g` occurs in `incidence[v]` exactly as often as `v` occurs in `g`'s vertex list, and no face index beyond the mesh occurs |
| `Incidence.IncidentMembership` | planarize.py:24-26 | `g` is in `incidence[v]` if and only if `g` is a face of the mesh whose vertex list contains `v` |
| `Incidence.IncidentOrdered` | planarize.py:24-26 | every `incidence[v]` is in face-enumeration order (non-decreasing face indices) |
| `Incidence.IncidentUpTo` | planarize.py:24-26 | after scanning `n` faces every entry of `incidence[v]` is one of those `n` faces |
| `Neighbors.NeighborLists` | planarize.py:27-29 | there is one neighbour list per face |
| `Neighbors.NeighborCount` | planarize.py:29 | `g` occurs in `neighbors[f]` once per pair of vertex slots `f` and `g` share (duplicates kept), and never when `g` is `f` |
| `Neighbors.NeighborSymmetry` | planarize.py:29 | the multiplicity of `g` in `neighbors[f]` equals the multiplicity of `f` in `neighbors[g]` |
| `Neighbors.NeighborMembership` | planarize.py:29 | `g` is a neighbour of `f` if and only if `g` is another face of the mesh sharing at least one vertex with `f`; a face is never its own neighbour |
| `Neighbors.CandidatesSpec` | planarize.py:31 | the candidate list holds exactly the faces with at least three neighbour entries, each once, in index order |
| `NearestNormals.SortBySpec` | planarize.py:37 | the sort (`list.sort` with a key) returns a permutation of its input, ordered by key, and stable: for every key value the elements with that key keep their order |
| `NearestNormals.NearestAreClosest` | planarize.py:37-38 | `nearest[:3]` has `min(3, n)` elements taken from the neighbour normals, and no neighbour normal left out is strictly closer to the current normal than a chosen one |
| `Smoothing.Round` | planarize.py:34-38 | a round only overwrites existing entries of the normal map |
| `Smoothing.AllRounds` | planarize.py:32-38 | the rounds only overwrite existing entries of the normal map |
| `Smoothing.Smoothened` | planarize.py:30-39 | the returned map has exactly one normal per input face |
| `Smoothing.SmoothenNormals` | planarize.py:22-39 | the method (incidence loop, neighbour lists, candidates, five rounds of in-place updates in the given shuffled orders) returns exactly `Smoothened(...)`, the sequential composition of the visits |
| `Smoothing.SmoothenRounds` | planarize.py:32-38 | given visiting orders that are each a permutation of the candidate list, the five rounds return exactly `AllRounds(...)`: one round per order, each starting from the normals the previous round left |
| `Smoothing.SmoothenRound` | planarize.py:34-38 | the inner loop of one round returns exactly `Round(start, ..., randfaces)`: the faces of the order visited one after the other, each overwritten by its smoothed normal computed from the normals as updated so far |
| `Smoothing.NonCandidateKeepsNormal` | planarize.py:30-38 | a face with fewer than three neighbour entries is never visited and keeps its own normal through all five rounds |
| `Smoothing.CandidateUpdate` | planarize.py:34-38 | visiting the `i`-th face of a round changes only that face's normal; the new value is the normalised sum of exactly three neighbour normals taken from the field as left by the earlier visits; none left out is strictly closer than one chosen |
| `Smoothing.UpdateVisibleLater` | planarize.py:33-38 | a face's new normal is what every later visit of the same round reads, until that face is visited again |
| `Solver.CollectPlanes` | planarize.py:43-49 | the loop builds, for every vertex, the list `Planes(...)` of plane pairs of the non-triangle faces, in face order |
| `Solver.PlaneSources` | planarize.py:44-49 | a triangle contributes no plane; every other face contributes its pair `(normals[f], normals[f]·centre[f])` to a vertex's list once per slot holding that vertex, so the plane count is the number of incident non-triangle face slots |
| `Solver.AnchorWeight` | planarize.py:51 | α equals `rigidity` with at least three planes and is never below `rigidity`; with fewer than three it is at least `1e-3`, hence positive |
| `Solver.AssembleSystem` | planarize.py:52-56 | `A` and `b` have `3 + k` rows: rows 0-2 are α times the identity with right-hand side α·orig, then the plane normals and offsets in collection order |
| `Solver.ExactSolutionsOfSystem` | planarize.py:52-56 | for α ≠ 0, `x` satisfies every row exactly if and only if `x` is the original position and the original position lies on every plane (so with no planes the original position is the only exact solution) |
| `Solver.PassResult` | planarize.py:50-58 | a pass yields one position per vertex |
| `Solver.PlanarizePass` | planarize.py:42-58 | after the pass the positions are exactly `PassResult(orig, faces, normals, centres, rigidity, lstsq)`, with the centres taken from the positions before the pass: every vertex holds the least-squares solution of its own system, which depends on the original positions, the normals and those centres and not on vertices moved earlier in the pass |
| `Solver.PlanarVertexStays` | planarize.py:50-58 | if the solver solves consistent systems exactly and α ≠ 0, a vertex whose original position lies on all its planes ends at its original position |
| `Solver.TriangleVertexStays` | planarize.py:45-58 | a vertex belonging only to triangles has no plane constraint and ends at its original position, whatever the rigidity |
| `Solver.PlanarMeshStays` | planarize.py:50-58 | with a positive rigidity and a solver that solves consistent systems exactly, a pass over a mesh whose non-triangle faces already contain all their vertices leaves every vertex where it is |
| `Operator.Planarize.constructor` | planarize.py:66-71 | the settings respect their declared minimums: rigidity at least 0, at least one step |
| `Operator.Planarize.Execute` | planarize.py:77-90 | the operator changes only the vertex positions and leaves them at `Run(..., iterations)`: exactly `iterations` passes, pass `i` with weight `rigidity / 2**i`, all anchored to the one snapshot taken before the loop |
| `Operator.Planarize.Iteration` | planarize.py:85-87 | one pass of the loop: the normals become `PassNormals(...)` (the smoothed normals of the current shape when smoothing is on, the normals kept from before the loop otherwise), the positions become the pass result with weight `rigidity / 2**i` and the centres of the shape at the start of the pass, so that positions after `i` passes become those after `i + 1` |
| `Operator.Run` | planarize.py:82-87 | every pass keeps the number of vertices |
| `Operator.PassNormals` | planarize.py:83-86 | each pass has one normal per face |
| `Operator.WeightSchedule` | planarize.py:87 | pass 0 uses `rigidity`; each later weight is half the previous one, so the weights never increase, stay at or above 0, and stay above 0 when `rigidity` is |
| `Operator.TriangleVertexEndsAtOrigin` | planarize.py:82-87 | after one or more passes a vertex that belongs only to triangles is at its snapshot position |
| `Operator.PlanarMeshIsFixed` | planarize.py:83-87 | without smoothing and with positive rigidity, a mesh whose non-triangle faces are already flat is unchanged by any number of passes |

## Left out

- `numpy.linalg.lstsq` is the parameter `Host.lstsq`. Least-squares optimality is not modelled. The lemmas that need the solver assume only `Solver.ExactWhenConsistent`: a system with an exact solution is solved exactly.
- `Vector.normalized()` is the parameter `Host.normalized`. Unit length is not proved. A zero sum goes to the parameter unchanged. The code has no fallback to the previous normal, and neither does the model.
- `Polygon.normal` and `Polygon.center` are the parameters `Host.faceNormal` and `Host.faceCenter`, functions of the current positions. Their geometry is host code.
- `random.shuffle` is replaced by caller-supplied visiting orders, each a permutation of the candidate list (`Smoothing.ValidShuffles`). The randomness itself is not modelled.
- `if other is not face` (line 29) is an identity test between polygon objects. The model reads it as "a different face index", as the design intends. If the host hands out a fresh polygon wrapper on every access, the test would never exclude the face itself, and each face would count itself as a neighbour once per vertex slot. That host behaviour is not modelled.
- `Operator.Planarize.Execute`: does not model the `OverflowError` of `self.rigidity/2**iteration`. At iteration 1024, `2**1024` cannot be converted to a float, so a run with more than 1024 iterations raises there, after 1024 passes have already moved the vertices. The model computes `rigidity / 2**i` exactly for every `i` and completes all `iterations` passes.
- Floating point is not modelled. Vectors are reals, and `rigidity / 2**i` is exact real division.
- Reads of `vertex.co` and `face.normal` are modelled as value copies. In Blender these reads can return vectors that stay linked to the mesh, so the snapshot would follow the moved vertices. The model keeps the snapshot fixed, as the operator's design intends.
- `Incidence.WellFormed` requires every face slot to name an existing vertex, as Blender meshes guarantee.
- The code reports no numeric failure of the solve, and neither does the model. With fewer than three planes the α floor keeps the anchor rows non-zero even when the rigidity is 0, so a lone quad does not give a singular system.
- What happens as the rigidity grows without bound is not stated; it is a limit statement about the numeric solver.
- Host plumbing is not modelled: `poll`, `mode_set`, operator registration, the menu entry and the property declarations beyond their minimums.
- `snap_bisect/__init__.py` and `snap_bisect.py` are not part of this model. They are the interactive bisect operator: viewport picking, ray casts, projection, drawing and modal event handling.
