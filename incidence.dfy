/**
 * The vertex-to-faces incidence map built at the start of the normal
 * smoothing pass. Faces and vertices are dense indices: a face is the
 * ordered list of its vertex indices.
 */
module Incidence {

  type Face = seq<nat>

  /** Every vertex slot of every face names one of the mesh's `nVerts` vertices. */
  predicate WellFormed(faces: seq<Face>, nVerts: nat)
  {
    forall f, j :: 0 <= f < |faces| && 0 <= j < |faces[f]| ==> faces[f][j] < nVerts
  }

  /** Number of slots of `s` that hold `x`. */
  function Count(s: seq<nat>, x: nat): nat
  {
    if s == [] then 0 else Count(s[..|s| - 1], x) + (if s[|s| - 1] == x then 1 else 0)
  }

  /** `n` copies of `x`. */
  function Copies<T>(x: T, n: nat): (r: seq<T>)
    ensures |r| == n
    ensures forall i :: 0 <= i < n ==> r[i] == x
  {
    if n == 0 then [] else Copies(x, n - 1) + [x]
  }

  /**
   * The list `incidence[v]` after the first `n` faces have been scanned:
   * face `f` is appended once for every slot of `f` that holds `v`.
   */
  function IncidentUpTo(faces: seq<Face>, n: nat, v: nat): (r: seq<nat>)
    requires n <= |faces|
    ensures forall i :: 0 <= i < |r| ==> r[i] < n
  {
    if n == 0 then [] else IncidentUpTo(faces, n - 1, v) + Copies<nat>(n - 1, Count(faces[n - 1], v))
  }

  function Incident(faces: seq<Face>, v: nat): seq<nat>
  {
    IncidentUpTo(faces, |faces|, v)
  }

  /** The whole incidence map, one list per vertex. */
  function IncidenceTable(faces: seq<Face>, nVerts: nat): (t: seq<seq<nat>>)
    ensures |t| == nVerts
  {
    seq(nVerts, (v: int) requires 0 <= v => Incident(faces, v))
  }

  /** The nested loop that fills `incidence`, one append per (face, vertex slot). */
  method BuildIncidence(faces: seq<Face>, nVerts: nat) returns (incidence: seq<seq<nat>>)
    requires WellFormed(faces, nVerts)
    ensures |incidence| == nVerts
    ensures forall v :: 0 <= v < nVerts ==> incidence[v] == Incident(faces, v)
  {
    incidence := seq(nVerts, _ => []);
    for f := 0 to |faces|
      invariant |incidence| == nVerts
      invariant forall v :: 0 <= v < nVerts ==> incidence[v] == IncidentUpTo(faces, f, v)
    {
      var face := faces[f];
      for j := 0 to |face|
        invariant |incidence| == nVerts
        invariant forall v :: 0 <= v < nVerts ==>
                    incidence[v] == IncidentUpTo(faces, f, v) + Copies<nat>(f, Count(face[..j], v))
      {
        var vertex := face[j];
        assert face[..j + 1][..j] == face[..j];
        incidence := incidence[vertex := incidence[vertex] + [f]];
      }
      assert face[..|face|] == face;
    }
  }

  lemma {:induction false} CountAppend(a: seq<nat>, b: seq<nat>, x: nat)
    ensures Count(a + b, x) == Count(a, x) + Count(b, x)
    decreases |b|
  {
    if b != [] {
      assert (a + b)[..|a + b| - 1] == a + b[..|b| - 1];
      CountAppend(a, b[..|b| - 1], x);
    } else {
      assert a + b == a;
    }
  }

  lemma {:induction false} CountCopies(f: nat, n: nat, g: nat)
    ensures Count(Copies<nat>(f, n), g) == if g == f then n else 0
  {
    if n > 0 {
      CountCopies(f, n - 1, g);
      assert Copies<nat>(f, n)[..n - 1] == Copies<nat>(f, n - 1);
    }
  }

  lemma {:induction false} CountPositive(s: seq<nat>, x: nat)
    ensures Count(s, x) > 0 <==> x in s
  {
    if s != [] {
      CountPositive(s[..|s| - 1], x);
      assert s == s[..|s| - 1] + [s[|s| - 1]];
    }
  }

  /**
   * Face `g` occurs in `incidence[v]` exactly as often as `v` occurs among
   * the vertices of `g`, and only faces of the mesh occur.
   */
  lemma {:induction false} IncidentCount(faces: seq<Face>, n: nat, v: nat, g: nat)
    requires n <= |faces|
    ensures Count(IncidentUpTo(faces, n, v), g) == if g < n then Count(faces[g], v) else 0
  {
    if n > 0 {
      var front := IncidentUpTo(faces, n - 1, v);
      var back := Copies<nat>(n - 1, Count(faces[n - 1], v));
      assert IncidentUpTo(faces, n, v) == front + back;
      IncidentCount(faces, n - 1, v, g);
      CountAppend(front, back, g);
      CountCopies(n - 1, Count(faces[n - 1], v), g);
    }
  }

  /** `incidence[v]` holds exactly the faces whose vertex list contains `v`. */
  lemma IncidentMembership(faces: seq<Face>, v: nat, g: nat)
    ensures g in Incident(faces, v) <==> g < |faces| && v in faces[g]
  {
    IncidentCount(faces, |faces|, v, g);
    CountPositive(Incident(faces, v), g);
    if g < |faces| {
      CountPositive(faces[g], v);
    }
  }

  /** `incidence[v]` lists the faces in face-enumeration order. */
  lemma {:induction false} IncidentOrdered(faces: seq<Face>, n: nat, v: nat)
    requires n <= |faces|
    ensures forall i, j :: 0 <= i < j < |IncidentUpTo(faces, n, v)| ==>
              IncidentUpTo(faces, n, v)[i] <= IncidentUpTo(faces, n, v)[j]
  {
    if n > 0 {
      IncidentOrdered(faces, n - 1, v);
      var front := IncidentUpTo(faces, n - 1, v);
      var back := Copies<nat>(n - 1, Count(faces[n - 1], v));
      var r := IncidentUpTo(faces, n, v);
      forall i, j | 0 <= i < j < |r| ensures r[i] <= r[j] {
        if j >= |front| {
          assert r[j] == back[j - |front|];
          if i < |front| {
            assert r[i] == front[i];
          } else {
            assert r[i] == back[i - |front|];
          }
        }
      }
    }
  }
}
