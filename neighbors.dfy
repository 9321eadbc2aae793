/**
 * Face adjacency of the smoothing pass: the per-face neighbour lists read
 * off the incidence map, and the candidate faces selected for updating.
 */
module Neighbors {
  import opened Incidence

  /** Faces with at least this many neighbour entries are update candidates. */
  const MinNeighbors: nat := 3

  /** `s` with every occurrence of `f` dropped (`if other is not face`). */
  function Without(s: seq<nat>, f: nat): seq<nat>
  {
    if s == [] then []
    else Without(s[..|s| - 1], f) + (if s[|s| - 1] == f then [] else [s[|s| - 1]])
  }

  /**
   * `[other for vertex in face.vertices for other in incidence[vertex] if other is not face]`
   * for the face with index `f` and vertex list `face`.
   */
  function NeighborsOf(incidence: seq<seq<nat>>, face: Face, f: nat): seq<nat>
    requires forall j :: 0 <= j < |face| ==> face[j] < |incidence|
  {
    if face == [] then []
    else NeighborsOf(incidence, face[..|face| - 1], f) + Without(incidence[face[|face| - 1]], f)
  }

  /** The neighbour list of every face. */
  function NeighborLists(faces: seq<Face>, incidence: seq<seq<nat>>): (nbrs: seq<seq<nat>>)
    requires WellFormed(faces, |incidence|)
    ensures |nbrs| == |faces|
  {
    seq(|faces|, (f: int) requires 0 <= f < |faces| => NeighborsOf(incidence, faces[f], f))
  }

  /** Number of pairs of slots `(i, j)` with `a[i] == b[j]`: the vertices two faces share, with repeats. */
  function PairCount(a: seq<nat>, b: seq<nat>): nat
  {
    if a == [] then 0 else PairCount(a[..|a| - 1], b) + Count(b, a[|a| - 1])
  }

  /** The faces (in index order) with at least `MinNeighbors` neighbour entries. */
  function CandidatesUpTo(nbrs: seq<seq<nat>>, n: nat): seq<nat>
    requires n <= |nbrs|
  {
    if n == 0 then []
    else CandidatesUpTo(nbrs, n - 1) + (if |nbrs[n - 1]| >= MinNeighbors then [n - 1] else [])
  }

  function Candidates(nbrs: seq<seq<nat>>): seq<nat>
  {
    CandidatesUpTo(nbrs, |nbrs|)
  }

  lemma {:induction false} CountWithout(s: seq<nat>, f: nat, g: nat)
    ensures Count(Without(s, f), g) == if g == f then 0 else Count(s, g)
  {
    if s != [] {
      var last := s[|s| - 1];
      CountWithout(s[..|s| - 1], f, g);
      CountAppend(Without(s[..|s| - 1], f), if last == f then [] else [last], g);
      if last != f {
        assert [last][..0] == [];
      }
    }
  }

  lemma {:induction false} PairCountEmpty(a: seq<nat>)
    ensures PairCount(a, []) == 0
  {
    if a != [] {
      PairCountEmpty(a[..|a| - 1]);
    }
  }

  lemma {:induction false} PairCountSnoc(a: seq<nat>, b: seq<nat>, y: nat)
    ensures PairCount(a, b + [y]) == PairCount(a, b) + Count(a, y)
  {
    if a != [] {
      var x := a[|a| - 1];
      PairCountSnoc(a[..|a| - 1], b, y);
      assert (b + [y])[..|b|] == b;
    }
  }

  /** Sharing vertex slots is symmetric: `a` shares as many with `b` as `b` with `a`. */
  lemma {:induction false} PairCountSymmetric(a: seq<nat>, b: seq<nat>)
    ensures PairCount(a, b) == PairCount(b, a)
    decreases |b|
  {
    if b == [] {
      PairCountEmpty(a);
    } else {
      var b' := b[..|b| - 1];
      var y := b[|b| - 1];
      assert b == b' + [y];
      PairCountSnoc(a, b', y);
      PairCountSymmetric(a, b');
    }
  }

  lemma {:induction false} PairCountPositive(a: seq<nat>, b: seq<nat>)
    ensures PairCount(a, b) > 0 <==> exists v :: v in a && v in b
  {
    if a != [] {
      var a' := a[..|a| - 1];
      var x := a[|a| - 1];
      PairCountPositive(a', b);
      CountPositive(b, x);
      assert a == a' + [x];
      if exists v :: v in a && v in b {
        var v :| v in a && v in b;
        assert v in a' || v == x;
      }
    }
  }

  lemma {:induction false} NeighborsOfCount(faces: seq<Face>, incidence: seq<seq<nat>>, face: Face, f: nat, g: nat)
    requires forall j :: 0 <= j < |face| ==> face[j] < |incidence|
    requires forall v :: 0 <= v < |incidence| ==> incidence[v] == Incident(faces, v)
    ensures Count(NeighborsOf(incidence, face, f), g)
            == if g == f || g >= |faces| then 0 else PairCount(face, faces[g])
  {
    if face != [] {
      var v := face[|face| - 1];
      assert face[..|face| - 1] <= face;
      NeighborsOfCount(faces, incidence, face[..|face| - 1], f, g);
      CountAppend(NeighborsOf(incidence, face[..|face| - 1], f), Without(incidence[v], f), g);
      CountWithout(incidence[v], f, g);
      IncidentCount(faces, |faces|, v, g);
    }
  }

  /**
   * Face `g` occurs in the neighbour list of `f` once per pair of vertex
   * slots the two faces share, and never when `g` is `f` itself.
   */
  lemma NeighborCount(faces: seq<Face>, incidence: seq<seq<nat>>, f: nat, g: nat)
    requires WellFormed(faces, |incidence|)
    requires forall v :: 0 <= v < |incidence| ==> incidence[v] == Incident(faces, v)
    requires f < |faces|
    ensures Count(NeighborLists(faces, incidence)[f], g)
            == if g == f || g >= |faces| then 0 else PairCount(faces[f], faces[g])
  {
    NeighborsOfCount(faces, incidence, faces[f], f, g);
  }

  /** Adjacency multiplicities are symmetric: `g` appears in `f`'s list as often as `f` in `g`'s. */
  lemma NeighborSymmetry(faces: seq<Face>, incidence: seq<seq<nat>>, f: nat, g: nat)
    requires WellFormed(faces, |incidence|)
    requires forall v :: 0 <= v < |incidence| ==> incidence[v] == Incident(faces, v)
    requires f < |faces| && g < |faces|
    ensures Count(NeighborLists(faces, incidence)[f], g) == Count(NeighborLists(faces, incidence)[g], f)
  {
    NeighborCount(faces, incidence, f, g);
    NeighborCount(faces, incidence, g, f);
    PairCountSymmetric(faces[f], faces[g]);
  }

  /** A face is never its own neighbour; the others are exactly the faces sharing a vertex with it. */
  lemma NeighborMembership(faces: seq<Face>, incidence: seq<seq<nat>>, f: nat, g: nat)
    requires WellFormed(faces, |incidence|)
    requires forall v :: 0 <= v < |incidence| ==> incidence[v] == Incident(faces, v)
    requires f < |faces|
    ensures g in NeighborLists(faces, incidence)[f]
            <==> g != f && g < |faces| && exists v :: v in faces[f] && v in faces[g]
  {
    NeighborCount(faces, incidence, f, g);
    CountPositive(NeighborLists(faces, incidence)[f], g);
    if g != f && g < |faces| {
      PairCountPositive(faces[f], faces[g]);
    }
  }

  /** The candidates are exactly the faces with at least three neighbour entries, each once, in index order. */
  lemma {:induction false} CandidatesSpec(nbrs: seq<seq<nat>>, n: nat)
    requires n <= |nbrs|
    ensures forall f: nat :: f in CandidatesUpTo(nbrs, n) <==> f < n && |nbrs[f]| >= MinNeighbors
    ensures forall i, j :: 0 <= i < j < |CandidatesUpTo(nbrs, n)| ==>
              CandidatesUpTo(nbrs, n)[i] < CandidatesUpTo(nbrs, n)[j]
  {
    if n > 0 {
      CandidatesSpec(nbrs, n - 1);
      var front := CandidatesUpTo(nbrs, n - 1);
      var r := CandidatesUpTo(nbrs, n);
      forall i, j | 0 <= i < j < |r| ensures r[i] < r[j] {
        if j >= |front| {
          assert r[j] == n - 1;
          assert r[i] == front[i] && front[i] in front;
        }
      }
    }
  }
}
