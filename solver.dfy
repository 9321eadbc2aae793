/**
 * `planarize`: one pass that moves every vertex to the least-squares
 * solution of a small system pulling it towards its original position
 * and onto the planes of its non-triangular faces.
 */
module Solver {
  import opened Vectors
  import opened Incidence

  /** A vertex with fewer plane constraints than this gets a floored anchor weight. */
  const MinPlanes: nat := 3

  /** The floor `1e-3` of the anchor weight. */
  const Floor: real := 0.001

  /** A plane constraint `normal · x == offset`. */
  datatype Plane = Plane(normal: Vec, offset: real)

  predicate OnPlane(p: Plane, x: Vec)
  {
    Dot(p.normal, x) == p.offset
  }

  /** `plane_pair = normals[face], normals[face].dot(face.center)` for face `f`. */
  function PlaneOf(normals: seq<Vec>, centers: seq<Vec>, f: nat): Plane
    requires f < |normals| && f < |centers|
  {
    Plane(normals[f], Dot(normals[f], centers[f]))
  }

  /** The face list with every triangle's vertex list emptied: triangles are skipped. */
  function DropTriangles(faces: seq<Face>): (r: seq<Face>)
    ensures |r| == |faces|
  {
    seq(|faces|, (f: int) requires 0 <= f < |faces| => if |faces[f]| == 3 then [] else faces[f])
  }

  /** The faces whose plane lands in vertex `v`'s list, in collection order. */
  function PlaneFaces(faces: seq<Face>, v: nat): seq<nat>
  {
    Incident(DropTriangles(faces), v)
  }

  /**
   * The list `planes[v]` after the first `n` faces have been scanned: a
   * non-triangle face appends its plane once per slot holding `v`.
   */
  function PlanesUpTo(faces: seq<Face>, normals: seq<Vec>, centers: seq<Vec>, n: nat, v: nat): seq<Plane>
    requires n <= |faces| && |normals| == |faces| && |centers| == |faces|
  {
    if n == 0 then []
    else
      PlanesUpTo(faces, normals, centers, n - 1, v)
        + (if |faces[n - 1]| == 3 then [] else Copies(PlaneOf(normals, centers, n - 1), Count(faces[n - 1], v)))
  }

  /** `planes[v]`: the plane constraints collected for vertex `v`. */
  function Planes(faces: seq<Face>, normals: seq<Vec>, centers: seq<Vec>, v: nat): seq<Plane>
    requires |normals| == |faces| && |centers| == |faces|
  {
    PlanesUpTo(faces, normals, centers, |faces|, v)
  }

  /** Scanning one more slot of a face appends the plane once more exactly when the slot holds `v`. */
  lemma SlotStep(front: seq<Plane>, p: Plane, face: Face, j: nat, v: nat)
    requires j < |face|
    ensures front + Copies(p, Count(face[..j + 1], v))
            == front + Copies(p, Count(face[..j], v)) + (if face[j] == v then [p] else [])
  {
    assert face[..j + 1][..j] == face[..j];
  }

  /** The loop that appends each non-triangle face's plane to the list of each of its vertices. */
  method CollectPlanes(faces: seq<Face>, nVerts: nat, normals: seq<Vec>, centers: seq<Vec>)
    returns (planes: seq<seq<Plane>>)
    requires WellFormed(faces, nVerts) && |normals| == |faces| && |centers| == |faces|
    ensures |planes| == nVerts
    ensures forall v :: 0 <= v < nVerts ==> planes[v] == Planes(faces, normals, centers, v)
  {
    planes := seq(nVerts, _ => []);
    for f := 0 to |faces|
      invariant |planes| == nVerts
      invariant forall v :: 0 <= v < nVerts ==> planes[v] == PlanesUpTo(faces, normals, centers, f, v)
    {
      var face := faces[f];
      if |face| == 3 {
        continue;
      }
      var planePair := PlaneOf(normals, centers, f);
      assert face[..0] == [];
      for j := 0 to |face|
        invariant |planes| == nVerts
        invariant forall v :: 0 <= v < nVerts ==>
                    planes[v] == PlanesUpTo(faces, normals, centers, f, v) + Copies(planePair, Count(face[..j], v))
      {
        var vertex := face[j];
        forall v | 0 <= v < nVerts
          ensures PlanesUpTo(faces, normals, centers, f, v) + Copies(planePair, Count(face[..j + 1], v))
                  == if v == vertex then planes[v] + [planePair] else planes[v]
        {
          SlotStep(PlanesUpTo(faces, normals, centers, f, v), planePair, face, j, v);
        }
        planes := planes[vertex := planes[vertex] + [planePair]];
      }
      assert face[..|face|] == face;
    }
  }

  function Max(a: real, b: real): real
  {
    if a >= b then a else b
  }

  /**
   * `alpha = rigidity if len(planes[v]) >= 3 else max(rigidity, 1e-3)`:
   * never below the rigidity, and positive whenever the vertex has fewer
   * than three planes.
   */
  function AnchorWeight(rigidity: real, planeCount: nat): (alpha: real)
    ensures alpha >= rigidity
    ensures planeCount >= MinPlanes ==> alpha == rigidity
    ensures planeCount < MinPlanes ==> alpha >= Floor > 0.0
  {
    if planeCount >= MinPlanes then rigidity else Max(rigidity, Floor)
  }

  /** `A` of the system: the rows of `alpha * eye(3)`, then one normal per plane. */
  function SystemMatrix(alpha: real, planes: seq<Plane>): seq<Vec>
  {
    [Vec(alpha, 0.0, 0.0), Vec(0.0, alpha, 0.0), Vec(0.0, 0.0, alpha)]
      + seq(|planes|, (i: int) requires 0 <= i < |planes| => planes[i].normal)
  }

  /** `b` of the system: `alpha * orig`, then one offset per plane. */
  function SystemRhs(alpha: real, orig: Vec, planes: seq<Plane>): seq<real>
  {
    [alpha * orig.x, alpha * orig.y, alpha * orig.z]
      + seq(|planes|, (i: int) requires 0 <= i < |planes| => planes[i].offset)
  }

  /** The loop that grows `A` and `b` by one row per plane, after the three anchor rows. */
  method AssembleSystem(alpha: real, orig: Vec, planes: seq<Plane>) returns (A: seq<Vec>, b: seq<real>)
    ensures |A| == |b| == 3 + |planes|
    ensures A[0] == Vec(alpha, 0.0, 0.0) && A[1] == Vec(0.0, alpha, 0.0) && A[2] == Vec(0.0, 0.0, alpha)
    ensures b[0] == alpha * orig.x && b[1] == alpha * orig.y && b[2] == alpha * orig.z
    ensures forall i :: 0 <= i < |planes| ==> A[3 + i] == planes[i].normal && b[3 + i] == planes[i].offset
    ensures A == SystemMatrix(alpha, planes) && b == SystemRhs(alpha, orig, planes)
  {
    A := [Vec(alpha, 0.0, 0.0), Vec(0.0, alpha, 0.0), Vec(0.0, 0.0, alpha)];
    b := [alpha * orig.x, alpha * orig.y, alpha * orig.z];
    for i := 0 to |planes|
      invariant |A| == |b| == 3 + i
      invariant A[0] == Vec(alpha, 0.0, 0.0) && A[1] == Vec(0.0, alpha, 0.0) && A[2] == Vec(0.0, 0.0, alpha)
      invariant b[0] == alpha * orig.x && b[1] == alpha * orig.y && b[2] == alpha * orig.z
      invariant forall k :: 0 <= k < i ==> A[3 + k] == planes[k].normal && b[3 + k] == planes[k].offset
    {
      A := A + [planes[i].normal];
      b := b + [planes[i].offset];
    }
    assert forall i :: 0 <= i < |A| ==> A[i] == SystemMatrix(alpha, planes)[i];
    assert forall i :: 0 <= i < |b| ==> b[i] == SystemRhs(alpha, orig, planes)[i];
  }

  /** `x` satisfies every row of the system `A x == b` exactly. */
  predicate ExactSolution(A: seq<Vec>, b: seq<real>, x: Vec)
  {
    |A| == |b| && forall i :: 0 <= i < |A| ==> Dot(A[i], x) == b[i]
  }

  /**
   * What is assumed of `numpy.linalg.lstsq` where it is needed: a system
   * that has an exact solution is solved exactly (its least residual is zero).
   */
  ghost predicate ExactWhenConsistent(lstsq: (seq<Vec>, seq<real>) -> Vec)
  {
    forall A, b, x {:trigger ExactSolution(A, b, x)} :: ExactSolution(A, b, x) ==> ExactSolution(A, b, lstsq(A, b))
  }

  /**
   * With a non-zero anchor weight the rows of a vertex's system are all
   * satisfied exactly by `x` if and only if `x` is the original position and
   * the original position lies on every plane.
   */
  lemma ExactSolutionsOfSystem(alpha: real, orig: Vec, planes: seq<Plane>, x: Vec)
    requires alpha != 0.0
    ensures ExactSolution(SystemMatrix(alpha, planes), SystemRhs(alpha, orig, planes), x)
            <==> x == orig && forall i :: 0 <= i < |planes| ==> OnPlane(planes[i], orig)
  {
    var A := SystemMatrix(alpha, planes);
    var b := SystemRhs(alpha, orig, planes);
    if ExactSolution(A, b, x) {
      assert Dot(A[0], x) == b[0] && Dot(A[1], x) == b[1] && Dot(A[2], x) == b[2];
      assert alpha * (x.x - orig.x) == 0.0 && alpha * (x.y - orig.y) == 0.0 && alpha * (x.z - orig.z) == 0.0;
      forall i | 0 <= i < |planes| ensures OnPlane(planes[i], orig) {
        assert Dot(A[3 + i], x) == b[3 + i];
      }
    }
  }

  /**
   * A polygon attribute of every face (`face.center`, `face.normal`), read
   * from the vertex positions `coords` as they are at the time of reading.
   */
  function PerFace(coords: seq<Vec>, faces: seq<Face>, attr: (seq<Vec>, Face) -> Vec): (r: seq<Vec>)
    ensures |r| == |faces|
  {
    seq(|faces|, (f: int) requires 0 <= f < |faces| => attr(coords, faces[f]))
  }

  /** The least-squares position of vertex `v`. */
  function NewPosition(orig: seq<Vec>, faces: seq<Face>, normals: seq<Vec>, centers: seq<Vec>, rigidity: real,
                       lstsq: (seq<Vec>, seq<real>) -> Vec, v: nat): Vec
    requires v < |orig| && |normals| == |faces| && |centers| == |faces|
  {
    var planes := Planes(faces, normals, centers, v);
    var alpha := AnchorWeight(rigidity, |planes|);
    lstsq(SystemMatrix(alpha, planes), SystemRhs(alpha, orig[v], planes))
  }

  /** The positions after one pass. */
  function PassResult(orig: seq<Vec>, faces: seq<Face>, normals: seq<Vec>, centers: seq<Vec>, rigidity: real,
                      lstsq: (seq<Vec>, seq<real>) -> Vec): (r: seq<Vec>)
    requires |normals| == |faces| && |centers| == |faces|
    ensures |r| == |orig|
  {
    seq(|orig|, (v: int) requires 0 <= v < |orig| => NewPosition(orig, faces, normals, centers, rigidity, lstsq, v))
  }

  /**
   * The pass: collect the planes from the centres of the faces as they are
   * now, then solve and write each vertex once, in index order. The new
   * position of a vertex depends on the original positions, the normals and
   * those centres, not on vertices already moved in the same pass.
   */
  method PlanarizePass(coords: array<Vec>, orig: seq<Vec>, faces: seq<Face>, normals: seq<Vec>, rigidity: real,
                       faceCenter: (seq<Vec>, Face) -> Vec, lstsq: (seq<Vec>, seq<real>) -> Vec)
    requires coords.Length == |orig| && WellFormed(faces, |orig|) && |normals| == |faces|
    modifies coords
    ensures coords[..] == PassResult(orig, faces, normals, PerFace(old(coords[..]), faces, faceCenter), rigidity, lstsq)
  {
    var centers := PerFace(coords[..], faces, faceCenter);
    var planes := CollectPlanes(faces, coords.Length, normals, centers);
    ghost var result := PassResult(orig, faces, normals, centers, rigidity, lstsq);
    for v := 0 to coords.Length
      invariant forall u :: 0 <= u < v ==> coords[u] == result[u]
    {
      var alpha := AnchorWeight(rigidity, |planes[v]|);
      var A, b := AssembleSystem(alpha, orig[v], planes[v]);
      assert lstsq(A, b) == result[v];
      coords[v] := lstsq(A, b);
    }
  }

  /** `ps` holds, position by position, the planes of the faces listed in `fs`. */
  predicate PlanesOfFaces(ps: seq<Plane>, fs: seq<nat>, normals: seq<Vec>, centers: seq<Vec>)
  {
    && |ps| == |fs|
    && forall i :: 0 <= i < |fs| ==> fs[i] < |normals| && fs[i] < |centers| && ps[i] == PlaneOf(normals, centers, fs[i])
  }

  lemma AppendPlanesOfFaces(ps: seq<Plane>, fs: seq<nat>, normals: seq<Vec>, centers: seq<Vec>, g: nat, c: nat)
    requires PlanesOfFaces(ps, fs, normals, centers) && g < |normals| && g < |centers|
    ensures PlanesOfFaces(ps + Copies(PlaneOf(normals, centers, g), c), fs + Copies<nat>(g, c), normals, centers)
  {
  }


  lemma {:induction false} PlanesMatchFaces(faces: seq<Face>, normals: seq<Vec>, centers: seq<Vec>, n: nat, v: nat)
    requires n <= |faces| && |normals| == |faces| && |centers| == |faces|
    ensures PlanesOfFaces(PlanesUpTo(faces, normals, centers, n, v), IncidentUpTo(DropTriangles(faces), n, v), normals, centers)
  {
    if n > 0 {
      PlanesMatchFaces(faces, normals, centers, n - 1, v);
      var kept := DropTriangles(faces);
      var frontFaces := IncidentUpTo(kept, n - 1, v);
      var frontPlanes := PlanesUpTo(faces, normals, centers, n - 1, v);
      if |faces[n - 1]| == 3 {
        assert kept[n - 1] == [];
        assert IncidentUpTo(kept, n, v) == frontFaces + Copies<nat>(n - 1, 0);
        assert PlanesUpTo(faces, normals, centers, n, v) == frontPlanes + [];
      } else {
        assert kept[n - 1] == faces[n - 1];
        AppendPlanesOfFaces(frontPlanes, frontFaces, normals, centers, n - 1, Count(kept[n - 1], v));
      }
    }
  }


  /**
   * Every face except a triangle contributes its plane to the list of a
   * vertex once per slot holding that vertex; triangles contribute none.
   */
  lemma PlaneSources(faces: seq<Face>, normals: seq<Vec>, centers: seq<Vec>, v: nat)
    requires |normals| == |faces| && |centers| == |faces|
    ensures |Planes(faces, normals, centers, v)| == |PlaneFaces(faces, v)|
    ensures forall f :: 0 <= f < |faces| ==>
              Count(PlaneFaces(faces, v), f) == if |faces[f]| == 3 then 0 else Count(faces[f], v)
    ensures forall i :: 0 <= i < |PlaneFaces(faces, v)| ==>
              var g := PlaneFaces(faces, v)[i];
              g < |faces| && |faces[g]| != 3 && v in faces[g]
              && Planes(faces, normals, centers, v)[i] == PlaneOf(normals, centers, g)
  {
    var kept := DropTriangles(faces);
    var fs := PlaneFaces(faces, v);
    PlanesMatchFaces(faces, normals, centers, |faces|, v);
    forall f | 0 <= f < |faces|
      ensures Count(fs, f) == if |faces[f]| == 3 then 0 else Count(faces[f], v)
    {
      IncidentCount(kept, |kept|, v, f);
    }
    forall i | 0 <= i < |fs| ensures fs[i] < |faces| && |faces[fs[i]]| != 3 && v in faces[fs[i]] {
      IncidentMembership(kept, v, fs[i]);
    }
  }

  /**
   * A vertex whose original position already lies on all of its planes is
   * left where it was, provided its anchor weight is not zero.
   */
  lemma PlanarVertexStays(orig: seq<Vec>, faces: seq<Face>, normals: seq<Vec>, centers: seq<Vec>, rigidity: real,
                          lstsq: (seq<Vec>, seq<real>) -> Vec, v: nat)
    requires ExactWhenConsistent(lstsq)
    requires v < |orig| && |normals| == |faces| && |centers| == |faces|
    requires rigidity > 0.0 || |Planes(faces, normals, centers, v)| < MinPlanes
    requires forall i :: 0 <= i < |Planes(faces, normals, centers, v)| ==>
               OnPlane(Planes(faces, normals, centers, v)[i], orig[v])
    ensures PassResult(orig, faces, normals, centers, rigidity, lstsq)[v] == orig[v]
  {
    var planes := Planes(faces, normals, centers, v);
    var alpha := AnchorWeight(rigidity, |planes|);
    var A := SystemMatrix(alpha, planes);
    var b := SystemRhs(alpha, orig[v], planes);
    ExactSolutionsOfSystem(alpha, orig[v], planes, orig[v]);
    ExactSolutionsOfSystem(alpha, orig[v], planes, lstsq(A, b));
  }

  /**
   * A vertex that belongs to triangles only has no plane constraint, so its
   * system is the anchor rows alone and it returns to its original position,
   * whatever the rigidity.
   */
  lemma TriangleVertexStays(orig: seq<Vec>, faces: seq<Face>, normals: seq<Vec>, centers: seq<Vec>, rigidity: real,
                            lstsq: (seq<Vec>, seq<real>) -> Vec, v: nat)
    requires ExactWhenConsistent(lstsq)
    requires v < |orig| && |normals| == |faces| && |centers| == |faces|
    requires forall f :: 0 <= f < |faces| && v in faces[f] ==> |faces[f]| == 3
    ensures Planes(faces, normals, centers, v) == []
    ensures PassResult(orig, faces, normals, centers, rigidity, lstsq)[v] == orig[v]
  {
    PlaneSources(faces, normals, centers, v);
    if PlaneFaces(faces, v) != [] {
      assert false;
    }
    PlanarVertexStays(orig, faces, normals, centers, rigidity, lstsq, v);
  }

  /** Every vertex of every non-triangle face lies on that face's plane. */
  predicate PlanarMesh(coords: seq<Vec>, faces: seq<Face>, normals: seq<Vec>, centers: seq<Vec>)
    requires |normals| == |faces| && |centers| == |faces|
  {
    forall f, u :: 0 <= f < |faces| && |faces[f]| != 3 && u in faces[f] && u < |coords| ==>
      OnPlane(PlaneOf(normals, centers, f), coords[u])
  }

  /**
   * With a positive rigidity, a pass over a mesh whose faces already lie on
   * their planes leaves every vertex where it is.
   */
  lemma PlanarMeshStays(orig: seq<Vec>, faces: seq<Face>, normals: seq<Vec>, centers: seq<Vec>, rigidity: real,
                        lstsq: (seq<Vec>, seq<real>) -> Vec)
    requires ExactWhenConsistent(lstsq) && rigidity > 0.0
    requires |normals| == |faces| && |centers| == |faces|
    requires PlanarMesh(orig, faces, normals, centers)
    ensures PassResult(orig, faces, normals, centers, rigidity, lstsq) == orig
  {
    forall v | 0 <= v < |orig| ensures PassResult(orig, faces, normals, centers, rigidity, lstsq)[v] == orig[v] {
      var planes := Planes(faces, normals, centers, v);
      PlaneSources(faces, normals, centers, v);
      forall i | 0 <= i < |planes| ensures OnPlane(planes[i], orig[v]) {
        var g := PlaneFaces(faces, v)[i];
        assert planes[i] == PlaneOf(normals, centers, g);
      }
      PlanarVertexStays(orig, faces, normals, centers, rigidity, lstsq, v);
    }
  }
}
