/**
 * The union-find forest the collapser uses, modelled by its contract: a
 * representative map `uf` where `uf[x]` is `Find(x).label`. Path compression
 * and the parent links of the elements do not change any `Find` result
 * and are not modelled. Which of the two roots survives a union is the
 * forest's own policy (by rank or size); here the caller passes the choice.
 */
module UnionFind {

  /** Every label's representative is a label that represents itself. */
  predicate Valid(uf: seq<nat>)
  {
    forall x :: 0 <= x < |uf| ==> uf[x] < |uf| && uf[uf[x]] == uf[x]
  }

  /** `n` singleton sets, one per label 0 .. n-1 (`UnionFindElement(iv)` for iv in range(n)). */
  function MakeSets(n: nat): (uf: seq<nat>)
    ensures |uf| == n && Valid(uf)
    ensures forall x :: 0 <= x < n ==> uf[x] == x
  {
    seq(n, x requires 0 <= x => x)
  }

  /** The label of the representative of x's set. */
  function Find(uf: seq<nat>, x: nat): (r: nat)
    requires Valid(uf) && x < |uf|
    ensures r < |uf| && uf[r] == r
  {
    uf[x]
  }

  /**
   * Merges the sets of a and b. The surviving representative is a's when
   * `keepFirst` holds and b's otherwise; no other set changes.
   */
  function Union(uf: seq<nat>, a: nat, b: nat, keepFirst: bool): (r: seq<nat>)
    requires Valid(uf) && a < |uf| && b < |uf|
    ensures |r| == |uf| && Valid(r)
    ensures Find(r, a) == Find(r, b)
    ensures forall x, y :: 0 <= x < |uf| && 0 <= y < |uf| ==>
      (r[x] == r[y] <==> uf[x] == uf[y] || (InPair(uf, a, b, x) && InPair(uf, a, b, y)))
    ensures forall x :: 0 <= x < |uf| && !InPair(uf, a, b, x) ==> r[x] == uf[x]
    ensures forall x :: 0 <= x < |uf| && InPair(uf, a, b, x) ==> r[x] == (if keepFirst then uf[a] else uf[b])
  {
    var ra, rb := uf[a], uf[b];
    if ra == rb then uf
    else
      var from, to := if keepFirst then rb else ra, if keepFirst then ra else rb;
      seq(|uf|, i requires 0 <= i < |uf| => if uf[i] == from then to else uf[i])
  }

  /** x is in the set of a or in the set of b. */
  predicate InPair(uf: seq<nat>, a: nat, b: nat, x: nat)
    requires a < |uf| && b < |uf| && x < |uf|
  {
    uf[x] == uf[a] || uf[x] == uf[b]
  }

  /** The representatives in use: one per set. */
  function Roots(uf: seq<nat>): set<nat>
  {
    set x | 0 <= x < |uf| :: uf[x]
  }

  /** The labels 0 .. n-1. */
  function Range(n: nat): (r: set<nat>)
    ensures |r| == n
    ensures forall x: nat :: x in r <==> x < n
  {
    if n == 0 then {} else Range(n - 1) + {n - 1}
  }

  /** n singletons make n sets. */
  lemma MakeSetsRoots(n: nat)
    ensures |Roots(MakeSets(n))| == n
  {
    var uf := MakeSets(n);
    forall x | x in Range(n)
      ensures x in Roots(uf)
    {
      assert uf[x] == x;
    }
    assert Roots(uf) == Range(n);
  }

  /** A union of two different sets leaves one set fewer; otherwise nothing changes. */
  lemma UnionRoots(uf: seq<nat>, a: nat, b: nat, keepFirst: bool)
    requires Valid(uf) && a < |uf| && b < |uf|
    ensures uf[a] != uf[b] ==> |Roots(Union(uf, a, b, keepFirst))| == |Roots(uf)| - 1
    ensures uf[a] == uf[b] ==> Union(uf, a, b, keepFirst) == uf
  {
    if uf[a] != uf[b] {
      var r := Union(uf, a, b, keepFirst);
      var gone := if keepFirst then uf[b] else uf[a];
      assert gone in Roots(uf) by {
        if keepFirst { assert uf[b] == uf[uf[b]]; } else { assert uf[a] == uf[uf[a]]; }
      }
      forall v | v in Roots(r)
        ensures v in Roots(uf) - {gone}
      {
        var x :| 0 <= x < |uf| && r[x] == v;
      }
      forall v | v in Roots(uf) - {gone}
        ensures v in Roots(r)
      {
        var x :| 0 <= x < |uf| && uf[x] == v;
        if InPair(uf, a, b, x) {
          assert r[a] == v;
        } else {
          assert r[x] == v;
        }
      }
      assert Roots(r) == Roots(uf) - {gone};
    }
  }
}
