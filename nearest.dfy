/**
 * The nearest-normal selection of one smoothing update: the neighbour
 * normals are sorted (stably) by squared distance to the face's current
 * normal and the first three are kept. The sort is stated for any real
 * key; the update uses the squared distance.
 */
module NearestNormals {
  import opened Vectors

  /** How many of the nearest neighbour normals are summed. */
  const Take: nat := 3

  function Min(a: nat, b: nat): nat
  {
    if a <= b then a else b
  }

  /** The sort key `lambda other_normal: (other_normal - nor).length_squared`. */
  function DistanceTo(nor: Vec): Vec -> real
  {
    w => DistSq(w, nor)
  }

  predicate SortedBy(s: seq<Vec>, key: Vec -> real)
  {
    forall i, j :: 0 <= i < j < |s| ==> key(s[i]) <= key(s[j])
  }

  /** The elements of `s` whose key is `d`, in their order in `s`. */
  function WithKey(s: seq<Vec>, key: Vec -> real, d: real): seq<Vec>
  {
    if s == [] then [] else (if key(s[0]) == d then [s[0]] else []) + WithKey(s[1..], key, d)
  }

  /** Puts `w` in front of the first element of `s` whose key is not smaller. */
  function Insert(w: Vec, s: seq<Vec>, key: Vec -> real): seq<Vec>
  {
    if s == [] || key(w) <= key(s[0]) then [w] + s
    else [s[0]] + Insert(w, s[1..], key)
  }

  /** `list.sort(key=key)`: a stable ascending sort. */
  function SortBy(vs: seq<Vec>, key: Vec -> real): seq<Vec>
  {
    if vs == [] then [] else Insert(vs[0], SortBy(vs[1..], key), key)
  }

  /** `nearest[:3]` after sorting the neighbour normals by distance to `nor`. */
  function Nearest(vs: seq<Vec>, nor: Vec): seq<Vec>
  {
    var sorted := SortBy(vs, DistanceTo(nor));
    assert |sorted| == |vs| by { SortBySpec(vs, DistanceTo(nor)); }
    sorted[..Min(Take, |vs|)]
  }

  lemma {:induction false} InsertMultiset(w: Vec, s: seq<Vec>, key: Vec -> real)
    ensures multiset(Insert(w, s, key)) == multiset(s) + multiset{w}
  {
    if s != [] && key(w) > key(s[0]) {
      InsertMultiset(w, s[1..], key);
      assert s == [s[0]] + s[1..];
    }
  }

  lemma {:induction false} InsertSorted(w: Vec, s: seq<Vec>, key: Vec -> real)
    requires SortedBy(s, key)
    ensures SortedBy(Insert(w, s, key), key)
  {
    var r := Insert(w, s, key);
    if s == [] || key(w) <= key(s[0]) {
      assert r[1..] == s;
      forall i, j | 0 <= i < j < |r| ensures key(r[i]) <= key(r[j]) {
        if i == 0 {
          assert r[j] == s[j - 1];
        }
      }
    } else {
      var tail := Insert(w, s[1..], key);
      InsertSorted(w, s[1..], key);
      InsertMultiset(w, s[1..], key);
      assert r[1..] == tail;
      forall j | 0 < j < |r| ensures key(r[0]) <= key(r[j]) {
        assert r[j] in multiset(tail);
        if r[j] != w {
          assert r[j] in multiset(s[1..]);
          var k :| 0 <= k < |s[1..]| && s[1..][k] == r[j];
          assert s[k + 1] == r[j];
        }
      }
    }
  }

  lemma {:induction false} InsertStable(w: Vec, s: seq<Vec>, key: Vec -> real, d: real)
    ensures WithKey(Insert(w, s, key), key, d)
            == if key(w) == d then [w] + WithKey(s, key, d) else WithKey(s, key, d)
  {
    if s == [] || key(w) <= key(s[0]) {
      var r := [w] + s;
      assert r[0] == w && r[1..] == s;
    } else {
      InsertStable(w, s[1..], key, d);
      var r := [s[0]] + Insert(w, s[1..], key);
      assert r[0] == s[0] && r[1..] == Insert(w, s[1..], key);
      assert s == [s[0]] + s[1..];
    }
  }

  lemma {:induction false} SortByPermutes(vs: seq<Vec>, key: Vec -> real)
    ensures multiset(SortBy(vs, key)) == multiset(vs)
  {
    if vs != [] {
      SortByPermutes(vs[1..], key);
      InsertMultiset(vs[0], SortBy(vs[1..], key), key);
      assert vs == [vs[0]] + vs[1..];
    }
  }

  lemma {:induction false} SortBySorted(vs: seq<Vec>, key: Vec -> real)
    ensures SortedBy(SortBy(vs, key), key)
  {
    if vs != [] {
      SortBySorted(vs[1..], key);
      InsertSorted(vs[0], SortBy(vs[1..], key), key);
    }
  }

  lemma {:induction false} SortByStable(vs: seq<Vec>, key: Vec -> real, d: real)
    ensures WithKey(SortBy(vs, key), key, d) == WithKey(vs, key, d)
  {
    if vs != [] {
      SortByStable(vs[1..], key, d);
      InsertStable(vs[0], SortBy(vs[1..], key), key, d);
    }
  }

  /**
   * The sort returns a permutation of its input, ordered by key, and
   * stable: for every key value, the elements with that key keep their
   * relative order.
   */
  lemma SortBySpec(vs: seq<Vec>, key: Vec -> real)
    ensures |SortBy(vs, key)| == |vs|
    ensures multiset(SortBy(vs, key)) == multiset(vs)
    ensures SortedBy(SortBy(vs, key), key)
    ensures forall d :: WithKey(SortBy(vs, key), key, d) == WithKey(vs, key, d)
  {
    SortByPermutes(vs, key);
    assert |multiset(SortBy(vs, key))| == |multiset(vs)|;
    SortBySorted(vs, key);
    forall d ensures WithKey(SortBy(vs, key), key, d) == WithKey(vs, key, d) {
      SortByStable(vs, key, d);
    }
  }

  /** In a sorted sequence, everything before position `k` has a key no larger than anything from `k` on. */
  lemma SortedSplit(s: seq<Vec>, key: Vec -> real, k: nat)
    requires SortedBy(s, key) && k <= |s|
    ensures forall c, u :: c in s[..k] && u in s[k..] ==> key(c) <= key(u)
  {
  }

  /**
   * The update uses `min(3, n)` of the `n` neighbour normals, taken from
   * them, and no normal left out is strictly closer than one chosen.
   */
  lemma NearestAreClosest(vs: seq<Vec>, nor: Vec)
    ensures |Nearest(vs, nor)| == Min(Take, |vs|)
    ensures multiset(Nearest(vs, nor)) <= multiset(vs)
    ensures forall c, u :: c in Nearest(vs, nor) && u in multiset(vs) - multiset(Nearest(vs, nor))
              ==> DistSq(c, nor) <= DistSq(u, nor)
  {
    var key := DistanceTo(nor);
    var sorted := SortBy(vs, key);
    SortBySpec(vs, key);
    var k := Min(Take, |vs|);
    var chosen := sorted[..k];
    var rest := sorted[k..];
    assert sorted == chosen + rest;
    assert multiset(vs) == multiset(chosen) + multiset(rest);
    SortedSplit(sorted, key, k);
    forall c, u | c in chosen && u in multiset(vs) - multiset(chosen)
      ensures DistSq(c, nor) <= DistSq(u, nor)
    {
      assert u in multiset(rest);
      assert key(c) <= key(u);
    }
  }
}
