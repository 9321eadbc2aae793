/**
 * `get_smoothened_normals`: five rounds in which every candidate face, in a
 * shuffled order, replaces its normal by the normalised sum of the three
 * neighbour normals nearest to it. Updates are in place, so a face visited
 * later in a round reads the normals already updated earlier in it.
 */
module Smoothing {
  import opened Vectors
  import opened Incidence
  import opened Neighbors
  import opened NearestNormals

  /** The number of smoothing rounds (`range(5)`). */
  const Rounds: nat := 5

  /** Every neighbour entry names one of the `n` faces. */
  predicate NeighborsInRange(nbrs: seq<seq<nat>>, n: nat)
  {
    forall f, g :: 0 <= f < |nbrs| && g in nbrs[f] ==> g < n
  }

  predicate InRange(order: seq<nat>, n: nat)
  {
    forall i :: 0 <= i < |order| ==> order[i] < n
  }

  /** The candidate list `randfaces` of a mesh. */
  function CandidateFaces(faces: seq<Face>, nVerts: nat): seq<nat>
    requires WellFormed(faces, nVerts)
  {
    Candidates(NeighborLists(faces, IncidenceTable(faces, nVerts)))
  }

  /**
   * The visiting orders `random.shuffle` produces: one per round, each a
   * permutation of the candidate list.
   */
  predicate ValidShuffles(faces: seq<Face>, nVerts: nat, orders: seq<seq<nat>>)
  {
    && WellFormed(faces, nVerts)
    && |orders| == Rounds
    && forall r :: 0 <= r < |orders| ==> multiset(orders[r]) == multiset(CandidateFaces(faces, nVerts))
  }

  /** `[normals[neighbor] for neighbor in neighbors[face]]`. */
  function Gather(ns: seq<Vec>, idx: seq<nat>): (r: seq<Vec>)
    requires forall g :: g in idx ==> g < |ns|
    ensures |r| == |idx|
  {
    seq(|idx|, (i: int) requires 0 <= i < |idx| => assert idx[i] in idx; ns[idx[i]])
  }

  /** The new normal of face `f` computed from the current normal field `ns`. */
  function Smoothed(ns: seq<Vec>, nbrs: seq<seq<nat>>, f: nat, normalize: Vec -> Vec): Vec
    requires |nbrs| == |ns| && NeighborsInRange(nbrs, |ns|) && f < |ns|
  {
    normalize(Sum(Nearest(Gather(ns, nbrs[f]), ns[f])))
  }

  /** The normal field after visiting the faces of `order` one after the other. */
  function Round(ns: seq<Vec>, nbrs: seq<seq<nat>>, order: seq<nat>, normalize: Vec -> Vec): (r: seq<Vec>)
    requires |nbrs| == |ns| && NeighborsInRange(nbrs, |ns|) && InRange(order, |ns|)
    ensures |r| == |ns|
  {
    if order == [] then ns
    else
      var prev := Round(ns, nbrs, order[..|order| - 1], normalize);
      var f := order[|order| - 1];
      prev[f := Smoothed(prev, nbrs, f, normalize)]
  }

  /** The normal field after one round per visiting order. */
  function AllRounds(ns: seq<Vec>, nbrs: seq<seq<nat>>, orders: seq<seq<nat>>, normalize: Vec -> Vec): (r: seq<Vec>)
    requires |nbrs| == |ns| && NeighborsInRange(nbrs, |ns|)
    requires forall k :: 0 <= k < |orders| ==> InRange(orders[k], |ns|)
    ensures |r| == |ns|
  {
    if orders == [] then ns
    else Round(AllRounds(ns, nbrs, orders[..|orders| - 1], normalize), nbrs, orders[|orders| - 1], normalize)
  }

  lemma NeighborsBounded(faces: seq<Face>, nVerts: nat)
    requires WellFormed(faces, nVerts)
    ensures NeighborsInRange(NeighborLists(faces, IncidenceTable(faces, nVerts)), |faces|)
  {
    var incidence := IncidenceTable(faces, nVerts);
    forall f, g | 0 <= f < |faces| && g in NeighborLists(faces, incidence)[f] ensures g < |faces| {
      NeighborMembership(faces, incidence, f, g);
    }
  }

  lemma ShuffledCandidates(faces: seq<Face>, nVerts: nat, orders: seq<seq<nat>>, k: nat, f: nat)
    requires ValidShuffles(faces, nVerts, orders) && k < |orders|
    ensures f in orders[k] <==> f < |faces| && |NeighborLists(faces, IncidenceTable(faces, nVerts))[f]| >= MinNeighbors
  {
    var nbrs := NeighborLists(faces, IncidenceTable(faces, nVerts));
    var candidates := CandidateFaces(faces, nVerts);
    assert candidates == CandidatesUpTo(nbrs, |nbrs|);
    CandidatesSpec(nbrs, |nbrs|);
    assert multiset(orders[k]) == multiset(candidates);
    assert f in orders[k] <==> f in multiset(orders[k]);
    assert f in orders[k] <==> f in candidates;
  }

  lemma ShufflesInRange(faces: seq<Face>, nVerts: nat, orders: seq<seq<nat>>)
    requires ValidShuffles(faces, nVerts, orders)
    ensures forall k :: 0 <= k < |orders| ==> InRange(orders[k], |faces|)
  {
    forall k, i | 0 <= k < |orders| && 0 <= i < |orders[k]| ensures orders[k][i] < |faces| {
      ShuffledCandidates(faces, nVerts, orders, k, orders[k][i]);
    }
  }

  /** The map `get_smoothened_normals` returns, given the faces' own normals. */
  function Smoothened(faces: seq<Face>, nVerts: nat, faceNormals: seq<Vec>, orders: seq<seq<nat>>,
                      normalize: Vec -> Vec): (r: seq<Vec>)
    requires ValidShuffles(faces, nVerts, orders) && |faceNormals| == |faces|
    ensures |r| == |faces|
  {
    NeighborsBounded(faces, nVerts);
    ShufflesInRange(faces, nVerts, orders);
    AllRounds(faceNormals, NeighborLists(faces, IncidenceTable(faces, nVerts)), orders, normalize)
  }

  /**
   * The smoothing pass: build the incidence map and neighbour lists, pick
   * the candidates, then run the rounds, overwriting one normal per visit.
   * `orders[r]` is the order `random.shuffle` left `randfaces` in for round `r`.
   */
  /** Every round's order is a permutation of the candidate list. */
  lemma ShufflesOfCandidates(faces: seq<Face>, nVerts: nat, orders: seq<seq<nat>>)
    requires ValidShuffles(faces, nVerts, orders)
    ensures forall r :: 0 <= r < |orders| ==>
              multiset(orders[r]) == multiset(Candidates(NeighborLists(faces, IncidenceTable(faces, nVerts))))
  {
  }

  method SmoothenNormals(faces: seq<Face>, nVerts: nat, faceNormals: seq<Vec>, orders: seq<seq<nat>>,
                         normalize: Vec -> Vec) returns (normals: seq<Vec>)
    requires ValidShuffles(faces, nVerts, orders) && |faceNormals| == |faces|
    ensures normals == Smoothened(faces, nVerts, faceNormals, orders, normalize)
  {
    var incidence := BuildIncidence(faces, nVerts);
    assert incidence == IncidenceTable(faces, nVerts);
    var neighbors := NeighborLists(faces, incidence);
    NeighborsBounded(faces, nVerts);
    ShufflesInRange(faces, nVerts, orders);
    ShufflesOfCandidates(faces, nVerts, orders);
    var randfaces := Candidates(neighbors);
    normals := SmoothenRounds(faceNormals, neighbors, randfaces, orders, normalize);
  }

  /**
   * The five rounds, starting from the faces' own normals. Before round `r`,
   * `random.shuffle` leaves `randfaces` in the order `orders[r]`, a
   * permutation of the list it shuffles.
   */
  method SmoothenRounds(faceNormals: seq<Vec>, neighbors: seq<seq<nat>>, candidates: seq<nat>,
                        orders: seq<seq<nat>>, normalize: Vec -> Vec) returns (normals: seq<Vec>)
    requires |neighbors| == |faceNormals| && NeighborsInRange(neighbors, |faceNormals|)
    requires |orders| == Rounds
    requires forall r :: 0 <= r < |orders| ==> InRange(orders[r], |faceNormals|)
    requires forall r :: 0 <= r < |orders| ==> multiset(orders[r]) == multiset(candidates)
    ensures normals == AllRounds(faceNormals, neighbors, orders, normalize)
  {
    normals := faceNormals;
    var randfaces := candidates;
    for r := 0 to Rounds
      invariant multiset(randfaces) == multiset(candidates)
      invariant normals == AllRounds(faceNormals, neighbors, orders[..r], normalize)
    {
      assert multiset(orders[r]) == multiset(randfaces);
      randfaces := orders[r];
      AllRoundsStep(faceNormals, neighbors, orders, normalize, r);
      normals := SmoothenRound(normals, neighbors, randfaces, normalize);
    }
    assert orders[..Rounds] == orders;
  }

  /**
   * One round: visit the faces of `randfaces` in order, each time replacing
   * the face's normal by the normalised sum of its three nearest neighbour
   * normals, read from the normals as updated so far.
   */
  method SmoothenRound(start: seq<Vec>, neighbors: seq<seq<nat>>, randfaces: seq<nat>, normalize: Vec -> Vec)
    returns (normals: seq<Vec>)
    requires |neighbors| == |start| && NeighborsInRange(neighbors, |start|) && InRange(randfaces, |start|)
    ensures normals == Round(start, neighbors, randfaces, normalize)
  {
    normals := start;
    for i := 0 to |randfaces|
      invariant |normals| == |start|
      invariant normals == Round(start, neighbors, randfaces[..i], normalize)
    {
      var face := randfaces[i];
      var nor := normals[face];
      var nearest := Gather(normals, neighbors[face]);
      var sorted := SortBy(nearest, DistanceTo(nor));
      SortBySpec(nearest, DistanceTo(nor));
      RoundStep(start, neighbors, randfaces, normalize, i);
      normals := normals[face := normalize(Sum(sorted[..Min(Take, |sorted|)]))];
    }
    assert randfaces[..|randfaces|] == randfaces;
  }

  lemma RoundStep(ns: seq<Vec>, nbrs: seq<seq<nat>>, order: seq<nat>, normalize: Vec -> Vec, i: nat)
    requires |nbrs| == |ns| && NeighborsInRange(nbrs, |ns|) && InRange(order, |ns|) && i < |order|
    ensures var before := Round(ns, nbrs, order[..i], normalize);
            Round(ns, nbrs, order[..i + 1], normalize) == before[order[i] := Smoothed(before, nbrs, order[i], normalize)]
  {
    assert order[..i + 1][..i] == order[..i];
  }

  lemma AllRoundsStep(ns: seq<Vec>, nbrs: seq<seq<nat>>, orders: seq<seq<nat>>, normalize: Vec -> Vec, r: nat)
    requires |nbrs| == |ns| && NeighborsInRange(nbrs, |ns|)
    requires forall k :: 0 <= k < |orders| ==> InRange(orders[k], |ns|)
    requires r < |orders|
    ensures AllRounds(ns, nbrs, orders[..r + 1], normalize)
            == Round(AllRounds(ns, nbrs, orders[..r], normalize), nbrs, orders[r], normalize)
  {
    assert orders[..r + 1][..r] == orders[..r];
  }

  lemma {:induction false} RoundKeepsUnvisited(ns: seq<Vec>, nbrs: seq<seq<nat>>, order: seq<nat>,
                                               normalize: Vec -> Vec, f: nat)
    requires |nbrs| == |ns| && NeighborsInRange(nbrs, |ns|) && InRange(order, |ns|)
    requires f < |ns| && f !in order
    ensures Round(ns, nbrs, order, normalize)[f] == ns[f]
  {
    if order != [] {
      assert order[..|order| - 1] <= order;
      RoundKeepsUnvisited(ns, nbrs, order[..|order| - 1], normalize, f);
    }
  }

  lemma {:induction false} AllRoundsKeepUnvisited(ns: seq<Vec>, nbrs: seq<seq<nat>>, orders: seq<seq<nat>>,
                                                  normalize: Vec -> Vec, f: nat)
    requires |nbrs| == |ns| && NeighborsInRange(nbrs, |ns|)
    requires forall k :: 0 <= k < |orders| ==> InRange(orders[k], |ns|)
    requires f < |ns| && forall k :: 0 <= k < |orders| ==> f !in orders[k]
    ensures AllRounds(ns, nbrs, orders, normalize)[f] == ns[f]
  {
    if orders != [] {
      var front := orders[..|orders| - 1];
      AllRoundsKeepUnvisited(ns, nbrs, front, normalize, f);
      RoundKeepsUnvisited(AllRounds(ns, nbrs, front, normalize), nbrs, orders[|orders| - 1], normalize, f);
    }
  }

  /**
   * A face with fewer than three neighbour entries is never visited and
   * keeps its own normal through all rounds.
   */
  lemma NonCandidateKeepsNormal(faces: seq<Face>, nVerts: nat, faceNormals: seq<Vec>, orders: seq<seq<nat>>,
                                normalize: Vec -> Vec, f: nat)
    requires ValidShuffles(faces, nVerts, orders) && |faceNormals| == |faces|
    requires f < |faces| && |NeighborLists(faces, IncidenceTable(faces, nVerts))[f]| < MinNeighbors
    ensures Smoothened(faces, nVerts, faceNormals, orders, normalize)[f] == faceNormals[f]
  {
    NeighborsBounded(faces, nVerts);
    ShufflesInRange(faces, nVerts, orders);
    forall k | 0 <= k < |orders| ensures f !in orders[k] {
      ShuffledCandidates(faces, nVerts, orders, k, f);
    }
    AllRoundsKeepUnvisited(faceNormals, NeighborLists(faces, IncidenceTable(faces, nVerts)), orders, normalize, f);
  }

  /**
   * Visiting the `i`-th face of a round overwrites that face's normal only,
   * with the normalised sum of three neighbour normals taken from the field
   * as it stands after the earlier visits of the round, none of the
   * neighbour normals left out being strictly closer than a chosen one.
   */
  lemma CandidateUpdate(ns: seq<Vec>, nbrs: seq<seq<nat>>, order: seq<nat>, normalize: Vec -> Vec, i: nat)
    requires |nbrs| == |ns| && NeighborsInRange(nbrs, |ns|) && InRange(order, |ns|)
    requires i < |order| && |nbrs[order[i]]| >= MinNeighbors
    ensures var before := Round(ns, nbrs, order[..i], normalize);
            var f := order[i];
            var around := Gather(before, nbrs[f]);
            var chosen := Nearest(around, before[f]);
            && Round(ns, nbrs, order[..i + 1], normalize) == before[f := normalize(Sum(chosen))]
            && |chosen| == Take
            && multiset(chosen) <= multiset(around)
            && forall c, u :: c in chosen && u in multiset(around) - multiset(chosen)
                 ==> DistSq(c, before[f]) <= DistSq(u, before[f])
  {
    assert order[..i + 1][..i] == order[..i];
    var before := Round(ns, nbrs, order[..i], normalize);
    NearestAreClosest(Gather(before, nbrs[order[i]]), before[order[i]]);
  }

  /**
   * The value a face receives when it is visited is the one every later
   * visit of the same round reads, until the face is visited again.
   */
  lemma {:induction false} UpdateVisibleLater(ns: seq<Vec>, nbrs: seq<seq<nat>>, order: seq<nat>,
                                              normalize: Vec -> Vec, i: nat, j: nat)
    requires |nbrs| == |ns| && NeighborsInRange(nbrs, |ns|) && InRange(order, |ns|)
    requires i < j <= |order| && forall k :: i < k < j ==> order[k] != order[i]
    ensures Round(ns, nbrs, order[..j], normalize)[order[i]] == Round(ns, nbrs, order[..i + 1], normalize)[order[i]]
  {
    if j > i + 1 {
      UpdateVisibleLater(ns, nbrs, order, normalize, i, j - 1);
      RoundStep(ns, nbrs, order, normalize, j - 1);
    }
  }
}
