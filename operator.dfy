/**
 * `Planarize.execute`: snapshot the original positions, then run
 * `iterations` passes with anchor weight `rigidity / 2**i`, recomputing the
 * smoothed normals before each pass when smoothing is on.
 */
module Operator {
  import opened Vectors
  import opened Incidence
  import opened Smoothing
  import opened Solver

  /**
   * The services of the host application and of the numeric libraries the
   * operator calls: a polygon's normal and centre for given vertex
   * positions, `Vector.normalized()` and the solution part of
   * `numpy.linalg.lstsq(A, b)`.
   */
  datatype Host = Host(
    faceNormal: (seq<Vec>, Face) -> Vec,
    faceCenter: (seq<Vec>, Face) -> Vec,
    normalized: Vec -> Vec,
    lstsq: (seq<Vec>, seq<real>) -> Vec)

  function Pow2(i: nat): (p: nat)
    ensures p >= 1
  {
    if i == 0 then 1 else 2 * Pow2(i - 1)
  }

  /** The base anchor weight of pass `i`: `rigidity / 2**i`. */
  function Weight(rigidity: real, i: nat): real
  {
    rigidity / (Pow2(i) as real)
  }

  /** A shuffle schedule for the first `n` passes: five visiting orders per pass when smoothing is on. */
  predicate ShufflesFor(faces: seq<Face>, nVerts: nat, doSmoothen: bool, shuffles: seq<seq<seq<nat>>>, n: nat)
  {
    && WellFormed(faces, nVerts)
    && (doSmoothen ==> |shuffles| >= n && forall i :: 0 <= i < n ==> ValidShuffles(faces, nVerts, shuffles[i]))
  }

  /**
   * The vertex positions after `n` passes. Every pass anchors to `orig`;
   * its normals are the smoothed normals of the current shape when
   * smoothing is on and the normals of the original shape otherwise; its
   * face centres are those of the current shape.
   */
  function Run(orig: seq<Vec>, faces: seq<Face>, doSmoothen: bool, rigidity: real, host: Host,
               shuffles: seq<seq<seq<nat>>>, n: nat): (r: seq<Vec>)
    requires ShufflesFor(faces, |orig|, doSmoothen, shuffles, n)
    ensures |r| == |orig|
  {
    if n == 0 then orig
    else
      var cur := Run(orig, faces, doSmoothen, rigidity, host, shuffles, n - 1);
      PassResult(orig, faces, PassNormals(orig, cur, faces, doSmoothen, host, shuffles, n - 1),
                 PerFace(cur, faces, host.faceCenter), Weight(rigidity, n - 1), host.lstsq)
  }

  /**
   * The normals pass `n` uses when the vertices are at `cur`: the smoothed
   * normals of the current shape, or the normals of the original shape
   * when smoothing is off.
   */
  function PassNormals(orig: seq<Vec>, cur: seq<Vec>, faces: seq<Face>, doSmoothen: bool, host: Host,
                       shuffles: seq<seq<seq<nat>>>, n: nat): (r: seq<Vec>)
    requires ShufflesFor(faces, |orig|, doSmoothen, shuffles, n + 1)
    ensures |r| == |faces|
  {
    if doSmoothen then Smoothened(faces, |orig|, PerFace(cur, faces, host.faceNormal), shuffles[n], host.normalized)
    else PerFace(orig, faces, host.faceNormal)
  }

  /** A schedule for `n` passes covers every shorter run and the pass `i < n`. */
  lemma ShufflesPrefix(faces: seq<Face>, nVerts: nat, doSmoothen: bool, shuffles: seq<seq<seq<nat>>>, n: nat, i: nat)
    requires ShufflesFor(faces, nVerts, doSmoothen, shuffles, n) && i < n
    ensures ShufflesFor(faces, nVerts, doSmoothen, shuffles, i)
    ensures ShufflesFor(faces, nVerts, doSmoothen, shuffles, i + 1)
    ensures doSmoothen ==> ValidShuffles(faces, nVerts, shuffles[i])
  {
  }

  /** Pass `n + 1` in terms of the positions after `n` passes. */
  lemma RunStep(orig: seq<Vec>, faces: seq<Face>, doSmoothen: bool, rigidity: real, host: Host,
                shuffles: seq<seq<seq<nat>>>, n: nat)
    requires ShufflesFor(faces, |orig|, doSmoothen, shuffles, n + 1)
    ensures ShufflesFor(faces, |orig|, doSmoothen, shuffles, n)
    ensures var cur := Run(orig, faces, doSmoothen, rigidity, host, shuffles, n);
            Run(orig, faces, doSmoothen, rigidity, host, shuffles, n + 1)
            == PassResult(orig, faces, PassNormals(orig, cur, faces, doSmoothen, host, shuffles, n),
                          PerFace(cur, faces, host.faceCenter), Weight(rigidity, n), host.lstsq)
  {
  }

  /** The operator with its three settings. */
  class Planarize {
    const rigidity: real
    const iterations: nat
    const doSmoothen: bool

    /** The settings' declared minimums: rigidity at least 0, at least one step. */
    constructor (rigidity: real, iterations: nat, doSmoothen: bool)
      requires rigidity >= 0.0 && iterations >= 1
      ensures this.rigidity == rigidity && this.iterations == iterations && this.doSmoothen == doSmoothen
    {
      this.rigidity := rigidity;
      this.iterations := iterations;
      this.doSmoothen := doSmoothen;
    }

    /**
     * Runs exactly `iterations` passes over the mesh whose vertex positions
     * are `coords` and whose polygons are `faces`; `shuffles[i]` holds the
     * visiting orders of the smoothing before pass `i`.
     */
    method Execute(coords: array<Vec>, faces: seq<Face>, host: Host, shuffles: seq<seq<seq<nat>>>)
      requires ShufflesFor(faces, coords.Length, doSmoothen, shuffles, iterations)
      modifies coords
      ensures coords[..] == Run(old(coords[..]), faces, doSmoothen, rigidity, host, shuffles, iterations)
    {
      var origCoords := coords[..];
      var normals := PerFace(origCoords, faces, host.faceNormal);
      for i := 0 to iterations
        invariant coords.Length == |origCoords|
        invariant |normals| == |faces|
        invariant !doSmoothen ==> normals == PerFace(origCoords, faces, host.faceNormal)
        invariant ShufflesFor(faces, |origCoords|, doSmoothen, shuffles, i)
        invariant coords[..] == Run(origCoords, faces, doSmoothen, rigidity, host, shuffles, i)
      {
        ShufflesPrefix(faces, |origCoords|, doSmoothen, shuffles, iterations, i);
        normals := Iteration(coords, origCoords, faces, normals, host, shuffles, i);
      }
    }

    /**
     * Pass `i`: recompute the smoothed normals of the current shape when
     * smoothing is on (keeping `normals` otherwise), then move the vertices
     * with anchor weight `rigidity / 2**i`. After `i` passes this makes
     * `i + 1`.
     */
    method Iteration(coords: array<Vec>, orig: seq<Vec>, faces: seq<Face>, normals: seq<Vec>, host: Host,
                     shuffles: seq<seq<seq<nat>>>, i: nat)
      returns (passNormals: seq<Vec>)
      requires ShufflesFor(faces, |orig|, doSmoothen, shuffles, i + 1)
      requires coords.Length == |orig| && |normals| == |faces|
      requires !doSmoothen ==> normals == PerFace(orig, faces, host.faceNormal)
      requires ShufflesFor(faces, |orig|, doSmoothen, shuffles, i)
      requires coords[..] == Run(orig, faces, doSmoothen, rigidity, host, shuffles, i)
      modifies coords
      ensures passNormals == PassNormals(orig, old(coords[..]), faces, doSmoothen, host, shuffles, i)
      ensures coords[..] == PassResult(orig, faces, passNormals, PerFace(old(coords[..]), faces, host.faceCenter),
                                       Weight(rigidity, i), host.lstsq)
      ensures coords[..] == Run(orig, faces, doSmoothen, rigidity, host, shuffles, i + 1)
    {
      passNormals := normals;
      if doSmoothen {
        passNormals := SmoothenNormals(faces, coords.Length, PerFace(coords[..], faces, host.faceNormal),
                                       shuffles[i], host.normalized);
      }
      PlanarizePass(coords, orig, faces, passNormals, rigidity / (Pow2(i) as real), host.faceCenter, host.lstsq);
      RunStep(orig, faces, doSmoothen, rigidity, host, shuffles, i);
    }
  }

  /**
   * Pass 0 uses the rigidity itself and each later pass half the weight of
   * the one before, so the weights never increase, never go below zero and
   * stay positive when the rigidity is.
   */
  lemma WeightSchedule(rigidity: real, i: nat)
    requires rigidity >= 0.0
    ensures Weight(rigidity, 0) == rigidity
    ensures Weight(rigidity, i + 1) == Weight(rigidity, i) / 2.0
    ensures 0.0 <= Weight(rigidity, i + 1) <= Weight(rigidity, i)
    ensures rigidity > 0.0 ==> Weight(rigidity, i) > 0.0
  {
    var p := Pow2(i) as real;
    assert Pow2(i + 1) as real == 2.0 * p;
    assert rigidity / (2.0 * p) == (rigidity / p) / 2.0;
  }

  /**
   * After any number of passes, a vertex that belongs to triangles only is
   * back at its original position: the last pass anchors it to the snapshot.
   */
  lemma TriangleVertexEndsAtOrigin(orig: seq<Vec>, faces: seq<Face>, doSmoothen: bool, rigidity: real, host: Host,
                                   shuffles: seq<seq<seq<nat>>>, n: nat, v: nat)
    requires ShufflesFor(faces, |orig|, doSmoothen, shuffles, n)
    requires ExactWhenConsistent(host.lstsq)
    requires n >= 1 && v < |orig|
    requires forall f :: 0 <= f < |faces| && v in faces[f] ==> |faces[f]| == 3
    ensures Run(orig, faces, doSmoothen, rigidity, host, shuffles, n)[v] == orig[v]
  {
    var cur := Run(orig, faces, doSmoothen, rigidity, host, shuffles, n - 1);
    var normals := PassNormals(orig, cur, faces, doSmoothen, host, shuffles, n - 1);
    TriangleVertexStays(orig, faces, normals, PerFace(cur, faces, host.faceCenter), Weight(rigidity, n - 1), host.lstsq, v);
  }

  /**
   * Without smoothing and with a positive rigidity, a mesh whose faces are
   * already flat (for the host's own normals and centres) is left unchanged
   * by any number of passes.
   */
  lemma {:induction false} PlanarMeshIsFixed(orig: seq<Vec>, faces: seq<Face>, rigidity: real, host: Host,
                                             shuffles: seq<seq<seq<nat>>>, n: nat)
    requires ShufflesFor(faces, |orig|, false, shuffles, n)
    requires ExactWhenConsistent(host.lstsq) && rigidity > 0.0
    requires PlanarMesh(orig, faces, PerFace(orig, faces, host.faceNormal), PerFace(orig, faces, host.faceCenter))
    ensures Run(orig, faces, false, rigidity, host, shuffles, n) == orig
  {
    if n > 0 {
      PlanarMeshIsFixed(orig, faces, rigidity, host, shuffles, n - 1);
      var normals := PerFace(orig, faces, host.faceNormal);
      var centers := PerFace(orig, faces, host.faceCenter);
      var weight := Weight(rigidity, n - 1);
      WeightSchedule(rigidity, n - 1);
      PlanarMeshStays(orig, faces, normals, centers, weight, host.lstsq);
    }
  }
}
