/**
 * The order in which `CollapseGraph` visits candidates:
 * `sorted(zip(probabilities, range(n)), reverse=True)`, i.e. by probability
 * descending and, among equal probabilities, by index descending. `zip`
 * stops at the shorter of its two arguments. Probabilities are used only as
 * totally ordered keys.
 */
module VisitOrder {

  /** Candidate i comes before candidate j. */
  predicate Above(p: seq<real>, i: nat, j: nat)
  {
    i < |p| && j < |p| && (p[i] > p[j] || (p[i] == p[j] && i > j))
  }

  /** Strictly descending by (probability, index). */
  predicate Descending(p: seq<real>, s: seq<nat>)
  {
    forall a, b :: 0 <= a < b < |s| ==> Above(p, s[a], s[b])
  }

  function Insert(p: seq<real>, i: nat, s: seq<nat>): (r: seq<nat>)
    requires i < |p| && Descending(p, s) && i !in s
    requires forall x :: x in s ==> x < |p|
    ensures |r| == |s| + 1
    ensures forall x :: x in r <==> x == i || x in s
    ensures Descending(p, r)
  {
    if |s| == 0 then [i]
    else if Above(p, i, s[0]) then
      assert forall b :: 0 < b < |s| ==> Above(p, s[0], s[b]);
      [i] + s
    else
      var rest := Insert(p, i, s[1..]);
      assert s[0] in s;
      assert forall x :: x in s[1..] ==> Above(p, s[0], x);
      assert Above(p, s[0], i);
      [s[0]] + rest
  }

  /**
   * The visit order of the first m candidates: every index below m exactly
   * once, strictly descending by (probability, index).
   */
  function Order(p: seq<real>, m: nat): (r: seq<nat>)
    requires m <= |p|
    ensures |r| == m
    ensures forall x: nat :: x in r <==> x < m
    ensures Descending(p, r)
  {
    if m == 0 then [] else Insert(p, m - 1, Order(p, m - 1))
  }

  lemma AboveAsymmetric(p: seq<real>, i: nat, j: nat)
    ensures !(Above(p, i, j) && Above(p, j, i))
  {
  }

  /** The head of a descending arrangement is above every other element. */
  lemma HeadAbove(p: seq<real>, s: seq<nat>, x: nat)
    requires Descending(p, s) && |s| > 0
    ensures x in s && x != s[0] ==> Above(p, s[0], x)
  {
  }

  /**
   * The order is fully determined: any strictly descending arrangement of
   * the same indices is the same sequence, so equal probabilities cannot
   * make two runs visit candidates differently.
   */
  lemma {:induction false} DescendingUnique(p: seq<real>, s: seq<nat>, t: seq<nat>)
    requires Descending(p, s) && Descending(p, t)
    requires forall x :: x in s <==> x in t
    ensures s == t
  {
    assert |s| > 0 ==> s[0] in s;
    assert |t| > 0 ==> t[0] in t;
    if |s| > 0 {
      HeadAbove(p, s, t[0]);
      HeadAbove(p, t, s[0]);
      AboveAsymmetric(p, s[0], t[0]);
      assert s[0] == t[0];
      assert s == [s[0]] + s[1..] && t == [t[0]] + t[1..];
      forall x | x in s[1..]
        ensures x in t[1..]
      {
        var a :| 0 <= a < |s[1..]| && s[1..][a] == x;
        assert Above(p, s[0], s[a + 1]);
        assert x in t && x != t[0];
      }
      forall x | x in t[1..]
        ensures x in s[1..]
      {
        var a :| 0 <= a < |t[1..]| && t[1..][a] == x;
        assert Above(p, t[0], t[a + 1]);
        assert x in s && x != s[0];
      }
      DescendingUnique(p, s[1..], t[1..]);
    }
  }
}
