/**
 * `CollapseGraph`: visit the candidate edges by descending probability,
 * reject an edge when another neighbour of its first label already shares
 * the second label's representative, merge the two labels otherwise, then
 * relabel the segmentation by representative.
 */
module Collapse {
  import opened Wrappers
  import opened Candidates
  import opened UnionFind
  import VisitOrder

  datatype CollapseError =
    | EmptySegmentation   // np.amax of an empty volume raises
    | LabelOutOfRange     // a candidate label has no adjacency slot: the list index raises

  /** The relabelled volume, the final flags and the label mapping. */
  datatype Collapsed = Collapsed(segmentation: seq<nat>, collapsed: seq<bool>, mapping: seq<nat>)

  /** Every candidate label indexes a table of `size` slots. */
  predicate LabelsBelow(cands: seq<Candidate>, size: nat)
  {
    forall i :: 0 <= i < |cands| ==> cands[i].labelOne < size && cands[i].labelTwo < size
  }

  /** max(segmentation) + 1, the size of the union-find forest (0 for an empty volume). */
  function MaxValue(segmentation: seq<nat>): (r: nat)
    ensures forall k :: 0 <= k < |segmentation| ==> segmentation[k] < r
    ensures |segmentation| > 0 ==> r - 1 in segmentation
  {
    if |segmentation| == 0 then 0
    else
      var front := MaxValue(segmentation[..|segmentation| - 1]);
      var last := segmentation[|segmentation| - 1];
      assert segmentation == segmentation[..|segmentation| - 1] + [last];
      if last + 1 > front then last + 1 else front
  }

  function Min(a: nat, b: nat): nat
  {
    if a < b then a else b
  }

  /**
   * The adjacency sets filled by lines 55-60, over a table of `size` slots:
   * label l's set holds every label that shares a candidate with l, in
   * either position.
   */
  function Adjacency(cands: seq<Candidate>, size: nat): (adj: seq<set<nat>>)
    requires LabelsBelow(cands, size)
    ensures |adj| == size
    ensures forall l, m :: 0 <= l < size ==>
      (m in adj[l] <==> exists i :: 0 <= i < |cands| && Joins(cands[i], l, m))
  {
    if |cands| == 0 then seq(size, _ => {})
    else
      var front := cands[..|cands| - 1];
      var c := cands[|cands| - 1];
      var adj := Adjacency(front, size);
      var one := adj[c.labelOne := adj[c.labelOne] + {c.labelTwo}];
      var both := one[c.labelTwo := one[c.labelTwo] + {c.labelOne}];
      assert forall i :: 0 <= i < |front| ==> front[i] == cands[i];
      both
  }

  /**
   * The adjacency table as lines 53-60 build it: one slot per candidate but
   * indexed by label, so it exists only when every label is below the
   * number of candidates; otherwise the list index raises.
   */
  function AdjacencyAsWritten(cands: seq<Candidate>): (r: Result<seq<set<nat>>, CollapseError>)
    ensures r.Success? <==> LabelsBelow(cands, |cands|)
    ensures r.Success? ==> |r.value| == |cands| && AdjacencyOf(r.value, cands)
  {
    if LabelsBelow(cands, |cands|) then Success(Adjacency(cands, |cands|)) else Failure(LabelOutOfRange)
  }

  /**
   * One candidate joining labels 1 and 2 of a volume holding labels 0, 1
   * and 2: the table as written has a single slot and raises, while the
   * table sized by max_value records the edge.
   */
  lemma AdjacencyTooSmall()
    ensures var cands := [Candidate(1, 2, Point(1, 1, 1), false)];
      && AdjacencyAsWritten(cands) == Failure(LabelOutOfRange)
      && MaxValue([0, 1, 2]) == 3
      && LabelsBelow(cands, 3)
      && Adjacency(cands, 3)[1] == {2} && Adjacency(cands, 3)[2] == {1}
  {
    var cands := [Candidate(1, 2, Point(1, 1, 1), false)];
    assert !LabelsBelow(cands, 1) by {
      assert cands[0].labelOne == 1;
    }
    assert [0, 1, 2][..2] == [0, 1] && [0, 1][..1] == [0];
  }

  /** adj[l] holds exactly the labels that share a candidate with l. */
  ghost predicate AdjacencyOf(adj: seq<set<nat>>, cands: seq<Candidate>)
  {
    && LabelsBelow(cands, |adj|)
    && forall l, m :: 0 <= l < |adj| ==> (m in adj[l] <==> exists i :: 0 <= i < |cands| && Joins(cands[i], l, m))
  }

  /** Some neighbour of label_one other than label_two shares label_two's representative. */
  ghost predicate Conflict(adjOne: set<nat>, b: nat, uf: seq<nat>)
    requires b < |uf|
  {
    exists n :: n in adjOne && n != b && n < |uf| && uf[n] == uf[b]
  }

  /** The scan of the neighbours of label_one (lines 72-79), in any set order. */
  method FindConflict(adjOne: set<nat>, b: nat, uf: seq<nat>) returns (rejected: bool)
    requires b < |uf| && forall n :: n in adjOne ==> n < |uf|
    ensures rejected <==> Conflict(adjOne, b, uf)
  {
    rejected := false;
    var rest := adjOne;
    while rest != {}
      invariant rest <= adjOne
      invariant rejected <==> exists n :: n in adjOne - rest && n != b && uf[n] == uf[b]
      decreases rest
    {
      var n :| n in rest;
      if n != b && uf[n] == uf[b] {
        rejected := true;
      }
      rest := rest - {n};
    }
  }

  /**
   * One visit (lines 66-83). A flag already set skips the edge; otherwise
   * the edge is rejected exactly on a conflict, and merged exactly when not
   * rejected. No other flag changes.
   */
  method VisitEdge(c: Candidate, adjOne: set<nat>, uf: seq<nat>, flagged: bool, keepFirst: bool)
    returns (uf': seq<nat>, flagged': bool)
    requires Valid(uf) && c.labelOne < |uf| && c.labelTwo < |uf|
    requires forall n :: n in adjOne ==> n < |uf|
    ensures flagged ==> flagged' && uf' == uf
    ensures !flagged ==> (flagged' <==> Conflict(adjOne, c.labelTwo, uf))
    ensures flagged' ==> uf' == uf
    ensures !flagged' ==> uf' == Union(uf, c.labelOne, c.labelTwo, keepFirst)
  {
    if flagged {
      return uf, true;
    }
    flagged' := FindConflict(adjOne, c.labelTwo, uf);
    if flagged' {
      return uf, true;
    }
    uf' := Union(uf, c.labelOne, c.labelTwo, keepFirst);
  }

  /** No self-loops and no unordered pair twice: the graph the forest claim needs. */
  ghost predicate Simple(cands: seq<Candidate>)
  {
    && (forall i :: 0 <= i < |cands| ==> cands[i].labelOne != cands[i].labelTwo)
    && (forall i, j :: 0 <= i < j < |cands| ==> !Joins(cands[j], cands[i].labelOne, cands[i].labelTwo))
  }

  predicate Touches(c: Candidate, x: nat)
  {
    c.labelOne == x || c.labelTwo == x
  }

  function Other(c: Candidate, x: nat): nat
  {
    if c.labelOne == x then c.labelTwo else c.labelOne
  }

  /** Some accepted edge leads from x to another member of x's set. */
  ghost predicate HasLink(uf: seq<nat>, cands: seq<Candidate>, acc: set<nat>, x: nat)
    requires x < |uf|
  {
    exists j :: j in acc && j < |cands| && Touches(cands[j], x) && Other(cands[j], x) < |uf|
      && uf[Other(cands[j], x)] == uf[x]
  }

  /** Every label whose set is not a singleton has an accepted edge inside its set. */
  ghost predicate Linked(uf: seq<nat>, cands: seq<Candidate>, acc: set<nat>)
  {
    forall x, y :: 0 <= x < |uf| && 0 <= y < |uf| && x != y && uf[x] == uf[y] ==> HasLink(uf, cands, acc, x)
  }

  /** Two different candidates of a simple graph never join the same two labels. */
  lemma DistinctPairs(cands: seq<Candidate>, i: nat, j: nat, a: nat, b: nat)
    requires Simple(cands) && i < |cands| && j < |cands| && i != j
    ensures Joins(cands[i], a, b) ==> !Joins(cands[j], a, b)
  {
  }

  /**
   * In a simple graph an edge whose labels already share a set is always
   * rejected: the accepted path between them leaves label_one through some
   * other neighbour. So every accepted edge joins two different sets.
   */
  lemma SameSetConflicts(cands: seq<Candidate>, adj: seq<set<nat>>, uf: seq<nat>, acc: set<nat>, ie: nat)
    requires Simple(cands) && ie < |cands| && ie !in acc
    requires Valid(uf) && LabelsBelow(cands, |uf|) && AdjacencyOf(adj, cands)
    requires Linked(uf, cands, acc)
    ensures var a, b := cands[ie].labelOne, cands[ie].labelTwo;
      uf[a] == uf[b] ==> Conflict(adj[a], b, uf)
  {
    var a, b := cands[ie].labelOne, cands[ie].labelTwo;
    if uf[a] == uf[b] {
      assert HasLink(uf, cands, acc, a);
      var j :| j in acc && j < |cands| && Touches(cands[j], a) && Other(cands[j], a) < |uf|
        && uf[Other(cands[j], a)] == uf[a];
      var n := Other(cands[j], a);
      assert Joins(cands[j], a, n);
      assert n in adj[a];
      DistinctPairs(cands, ie, j, a, b);
      assert n != b;
    }
  }

  /** After merging the sets of an accepted edge, the links still cover every non-singleton set. */
  lemma LinkedAfterUnion(cands: seq<Candidate>, uf: seq<nat>, acc: set<nat>, ie: nat, keepFirst: bool)
    requires Simple(cands) && ie < |cands|
    requires Valid(uf) && LabelsBelow(cands, |uf|)
    requires Linked(uf, cands, acc)
    ensures Linked(Union(uf, cands[ie].labelOne, cands[ie].labelTwo, keepFirst), cands, acc + {ie})
  {
    var a, b := cands[ie].labelOne, cands[ie].labelTwo;
    var r := Union(uf, a, b, keepFirst);
    var acc' := acc + {ie};
    forall x, y | 0 <= x < |r| && 0 <= y < |r| && x != y && r[x] == r[y]
      ensures HasLink(r, cands, acc', x)
    {
      var z: nat;
      if uf[x] == uf[y] {
        z := y;
      } else if x == a || x == b {
        assert Touches(cands[ie], x) && r[Other(cands[ie], x)] == r[x];
        z := y;
      } else if uf[x] == uf[a] {
        z := a;
      } else {
        z := b;
      }
      if (x != a && x != b) || uf[x] == uf[y] {
        assert x != z && uf[x] == uf[z];
        assert HasLink(uf, cands, acc, x);
        var j :| j in acc && j < |cands| && Touches(cands[j], x) && Other(cands[j], x) < |uf|
          && uf[Other(cands[j], x)] == uf[x];
        assert r[Other(cands[j], x)] == r[x];
        assert j in acc';
      }
    }
  }

  /** The accepted edges among the visited ones. */
  function Acc(collapsed: seq<bool>, visited: set<nat>): set<nat>
  {
    set i | i in visited && i < |collapsed| && !collapsed[i]
  }

  /** The edges among the first m left unflagged: the merges the collapse performed. */
  function Accepted(collapsed: seq<bool>, m: nat): set<nat>
  {
    set i | 0 <= i < m && i < |collapsed| && !collapsed[i]
  }

  lemma AccStep(collapsed: seq<bool>, collapsed': seq<bool>, visited: set<nat>, ie: nat)
    requires ie !in visited && ie < |collapsed| == |collapsed'| && collapsed' == collapsed[ie := collapsed'[ie]]
    ensures Acc(collapsed', visited + {ie}) == Acc(collapsed, visited) + (if collapsed'[ie] then {} else {ie})
  {
  }

  /**
   * Lines 40-96. The edges among the first min(|probabilities|, |candidates|)
   * are visited once each in descending (probability, index) order; flags
   * only go from false to true; every accepted edge ends inside one set;
   * the mapping sends each label to its representative, and the returned
   * volume is the mapping applied voxel by voxel. On a simple candidate graph
   * the accepted edges form a forest: each one removed exactly one set.
   */
  method CollapseGraph(segmentation: seq<nat>, cands: seq<Candidate>, collapsed0: seq<bool>,
                       probabilities: seq<real>, keepFirst: seq<bool>)
    returns (r: Result<Collapsed, CollapseError>, ghost ufs: seq<seq<nat>>)
    requires |keepFirst| == |cands|
    requires Min(|probabilities|, |cands|) <= |collapsed0|
    ensures r.Success? <==> |segmentation| > 0 && LabelsBelow(cands, MaxValue(segmentation))
    ensures r == Failure(EmptySegmentation) <==> |segmentation| == 0
    ensures r.Success? ==> var n, m := MaxValue(segmentation), Min(|probabilities|, |cands|);
      && Greedy(cands, Adjacency(cands, n), keepFirst, collapsed0, VisitOrder.Order(probabilities, m), n,
                ufs, r.value.collapsed)
      && ufs[m] == r.value.mapping
    ensures r.Success? ==> var o, m := r.value, Min(|probabilities|, |cands|);
      && |o.collapsed| == |collapsed0|
      && (forall i :: 0 <= i < |collapsed0| && collapsed0[i] ==> o.collapsed[i])
      && (forall i :: m <= i < |collapsed0| ==> o.collapsed[i] == collapsed0[i])
      && |o.mapping| == MaxValue(segmentation)
      && (forall v :: 0 <= v < |o.mapping| ==> o.mapping[v] < |o.mapping| && o.mapping[o.mapping[v]] == o.mapping[v])
      && (forall i :: 0 <= i < m && !o.collapsed[i] ==> o.mapping[cands[i].labelOne] == o.mapping[cands[i].labelTwo])
      && |o.segmentation| == |segmentation|
      && (forall k :: 0 <= k < |segmentation| ==> o.segmentation[k] == o.mapping[segmentation[k]])
      && (Simple(cands) ==> |Accepted(o.collapsed, m)| + |Roots(o.mapping)| == MaxValue(segmentation))
  {
    ufs := [];
    if |segmentation| == 0 {
      return Failure(EmptySegmentation), ufs;
    }
    var n := MaxValue(segmentation);
    if !LabelsBelow(cands, n) {
      return Failure(LabelOutOfRange), ufs;
    }
    var m := Min(|probabilities|, |cands|);
    var adj := Adjacency(cands, n);
    assert AdjacencyOf(adj, cands);
    var order := VisitOrder.Order(probabilities, m);
    var uf, collapsed;
    uf, collapsed, ufs := VisitAll(cands, adj, keepFirst, probabilities, order, collapsed0, n);
    var mapping := uf;
    var out := seq(|segmentation|, j requires 0 <= j < |segmentation| => mapping[segmentation[j]]);
    return Success(Collapsed(out, collapsed, mapping)), ufs;
  }

  /** The loop of lines 63-83 over the whole visiting order, from singleton sets. */
  method VisitAll(cands: seq<Candidate>, adj: seq<set<nat>>, keepFirst: seq<bool>, probabilities: seq<real>,
                  order: seq<nat>, collapsed0: seq<bool>, n: nat)
    returns (uf: seq<nat>, collapsed: seq<bool>, ghost ufs: seq<seq<nat>>)
    requires VisitOrder.Descending(probabilities, order)
    requires forall x: nat :: x in order <==> x < |order|
    requires |order| <= |cands| && |order| <= |collapsed0| && |keepFirst| == |cands|
    requires LabelsBelow(cands, n) && AdjacencyOf(adj, cands) && |adj| == n
    ensures Greedy(cands, adj, keepFirst, collapsed0, order, n, ufs, collapsed) && ufs[|order|] == uf
    ensures Valid(uf) && |uf| == n && |collapsed| == |collapsed0|
    ensures forall i :: 0 <= i < |collapsed0| && collapsed0[i] ==> collapsed[i]
    ensures forall i :: |order| <= i < |collapsed0| ==> collapsed[i] == collapsed0[i]
    ensures forall i :: 0 <= i < |order| && !collapsed[i] ==> uf[cands[i].labelOne] == uf[cands[i].labelTwo]
    ensures Simple(cands) ==> |Accepted(collapsed, |order|)| + |Roots(uf)| == n
  {
    var m := |order|;
    uf := MakeSets(n);
    MakeSetsRoots(n);
    collapsed := collapsed0;
    ghost var visited: set<nat> := {};
    ufs := [uf];
    var k := 0;
    while k < m
      invariant Progress(cands, collapsed0, order, m, k, uf, collapsed, visited) && |uf| == n
      invariant History(cands, adj, keepFirst, collapsed0, order, n, ufs, collapsed, k) && ufs[k] == uf
    {
      var uf', collapsed' := uf, collapsed;
      uf', collapsed', visited := Visit(cands, adj, keepFirst, probabilities, order, m, collapsed0, k, uf, collapsed, visited);
      HistoryStep(cands, adj, keepFirst, probabilities, collapsed0, order, n, ufs, collapsed, k, uf', collapsed'[order[k]]);
      ufs := ufs + [uf'];
      uf, collapsed := uf', collapsed';
      k := k + 1;
    }
    assert order[..m] == order;
    assert forall i: nat :: i in visited <==> i < m;
    assert Acc(collapsed, visited) == Accepted(collapsed, m);
  }

  /** The visited edges are exactly the first k of the order. */
  ghost predicate Visits(order: seq<nat>, k: nat, visited: set<nat>)
  {
    k <= |order| && forall i :: i in visited <==> i in order[..k]
  }

  /** Flags of unvisited edges are as given, and a flag given as set stays set. */
  ghost predicate FlagsKept(collapsed0: seq<bool>, collapsed: seq<bool>, visited: set<nat>)
  {
    && |collapsed| == |collapsed0|
    && (forall i :: 0 <= i < |collapsed| && i !in visited ==> collapsed[i] == collapsed0[i])
    && (forall i :: 0 <= i < |collapsed| && collapsed0[i] ==> collapsed[i])
  }

  /** Every accepted edge joins two labels of one set. */
  ghost predicate Merged(cands: seq<Candidate>, uf: seq<nat>, acc: set<nat>)
  {
    && Valid(uf) && LabelsBelow(cands, |uf|)
    && forall i :: i in acc ==> i < |cands| && uf[cands[i].labelOne] == uf[cands[i].labelTwo]
  }

  /** On a simple graph the accepted edges span the sets as a forest. */
  ghost predicate Forest(cands: seq<Candidate>, uf: seq<nat>, acc: set<nat>)
  {
    Simple(cands) ==> Linked(uf, cands, acc) && |acc| + |Roots(uf)| == |uf|
  }

  /** The state after visiting the first k edges of the order. */
  ghost predicate Progress(cands: seq<Candidate>, collapsed0: seq<bool>, order: seq<nat>, m: nat, k: nat,
                           uf: seq<nat>, collapsed: seq<bool>, visited: set<nat>)
  {
    && k <= m && Visits(order, k, visited)
    && (forall i :: i in visited ==> i < m)
    && FlagsKept(collapsed0, collapsed, visited)
    && Merged(cands, uf, Acc(collapsed, visited))
    && Forest(cands, uf, Acc(collapsed, visited))
  }

  /** Visiting the k-th edge of the order keeps the progress invariant. */
  method Visit(cands: seq<Candidate>, adj: seq<set<nat>>, keepFirst: seq<bool>, probabilities: seq<real>,
               order: seq<nat>, m: nat, collapsed0: seq<bool>, k: nat,
               uf: seq<nat>, collapsed: seq<bool>, ghost visited: set<nat>)
    returns (uf': seq<nat>, collapsed': seq<bool>, ghost visited': set<nat>)
    requires Progress(cands, collapsed0, order, m, k, uf, collapsed, visited) && k < m
    requires |order| == m && VisitOrder.Descending(probabilities, order)
    requires forall x: nat :: x in order <==> x < m
    requires m <= |cands| && m <= |collapsed| && |keepFirst| == |cands|
    requires AdjacencyOf(adj, cands) && |adj| == |uf|
    ensures Progress(cands, collapsed0, order, m, k + 1, uf', collapsed', visited') && |uf'| == |uf|
    ensures var ie := order[k];
      && ie < |cands| && ie < |collapsed0| && ie < |keepFirst|
      && collapsed' == collapsed[ie := collapsed'[ie]]
      && StepOf(cands[ie], adj[cands[ie].labelOne], keepFirst[ie], collapsed0[ie], uf, collapsed'[ie], uf')
  {
    var ie := order[k];
    assert ie in order;
    var c := cands[ie];
    var flag;
    uf', flag := VisitEdge(c, adj[c.labelOne], uf, collapsed[ie], keepFirst[ie]);
    collapsed' := collapsed[ie := flag];
    visited' := visited + {ie};
    ghost var acc := Acc(collapsed, visited);
    VisitsStep(probabilities, order, k, visited);
    assert collapsed[ie] == collapsed0[ie];
    FlagsStep(collapsed0, collapsed, visited, ie, flag);
    AccStep(collapsed, collapsed', visited, ie);
    MergedStep(cands, uf, uf', acc, ie, keepFirst[ie], !flag);
    ForestStep(cands, adj, uf, uf', acc, ie, keepFirst[ie], !flag);
  }

  lemma VisitsStep(p: seq<real>, order: seq<nat>, k: nat, visited: set<nat>)
    requires Visits(order, k, visited) && k < |order| && VisitOrder.Descending(p, order)
    ensures order[k] !in visited && Visits(order, k + 1, visited + {order[k]})
  {
    FreshIndex(p, order, k);
    assert order[..k + 1] == order[..k] + [order[k]];
  }

  lemma FlagsStep(collapsed0: seq<bool>, collapsed: seq<bool>, visited: set<nat>, ie: nat, flag: bool)
    requires FlagsKept(collapsed0, collapsed, visited) && ie < |collapsed|
    requires collapsed[ie] ==> flag
    ensures FlagsKept(collapsed0, collapsed[ie := flag], visited + {ie})
  {
  }

  /** A merge keeps every accepted edge inside one set, and adds the merged edge. */
  lemma MergedStep(cands: seq<Candidate>, uf: seq<nat>, uf': seq<nat>, acc: set<nat>, ie: nat,
                   keepFirst: bool, merged: bool)
    requires Merged(cands, uf, acc) && ie < |cands|
    requires uf' == if merged then Union(uf, cands[ie].labelOne, cands[ie].labelTwo, keepFirst) else uf
    ensures Merged(cands, uf', acc + (if merged then {ie} else {}))
  {
    var a, b := cands[ie].labelOne, cands[ie].labelTwo;
    if merged {
      forall i | i in acc
        ensures uf'[cands[i].labelOne] == uf'[cands[i].labelTwo]
      {
        assert uf[cands[i].labelOne] == uf[cands[i].labelTwo];
      }
      assert a < |uf'| && b < |uf'| && uf[a] == uf[a];
    }
  }

  /** An accepted edge of a simple graph always joins two sets, so the forest grows by one edge. */
  lemma ForestStep(cands: seq<Candidate>, adj: seq<set<nat>>, uf: seq<nat>, uf': seq<nat>, acc: set<nat>,
                   ie: nat, keepFirst: bool, merged: bool)
    requires Forest(cands, uf, acc) && ie < |cands| && ie !in acc
    requires Valid(uf) && LabelsBelow(cands, |uf|)
    requires AdjacencyOf(adj, cands)
    requires merged ==> !Conflict(adj[cands[ie].labelOne], cands[ie].labelTwo, uf)
    requires uf' == if merged then Union(uf, cands[ie].labelOne, cands[ie].labelTwo, keepFirst) else uf
    ensures Forest(cands, uf', acc + (if merged then {ie} else {}))
  {
    if !merged {
      assert acc + {} == acc;
    } else if Simple(cands) {
      ForestGrows(cands, adj, uf, acc, ie, keepFirst);
    }
  }

  lemma ForestGrows(cands: seq<Candidate>, adj: seq<set<nat>>, uf: seq<nat>, acc: set<nat>, ie: nat, keepFirst: bool)
    requires Simple(cands) && Linked(uf, cands, acc) && |acc| + |Roots(uf)| == |uf|
    requires ie < |cands| && ie !in acc
    requires Valid(uf) && LabelsBelow(cands, |uf|)
    requires AdjacencyOf(adj, cands)
    requires !Conflict(adj[cands[ie].labelOne], cands[ie].labelTwo, uf)
    ensures var uf' := Union(uf, cands[ie].labelOne, cands[ie].labelTwo, keepFirst);
      Linked(uf', cands, acc + {ie}) && |acc + {ie}| + |Roots(uf')| == |uf'|
  {
    var a, b := cands[ie].labelOne, cands[ie].labelTwo;
    SameSetConflicts(cands, adj, uf, acc, ie);
    LinkedAfterUnion(cands, uf, acc, ie, keepFirst);
    UnionRoots(uf, a, b, keepFirst);
    assert |acc + {ie}| == |acc| + 1;
  }

  /**
   * One visit as lines 67-83 perform it: the edge ends flagged exactly when
   * it was flagged on entry or some other neighbour of label_one already
   * shares label_two's set, and the forest it leaves is the one it found
   * with the two labels unioned exactly when the edge is not flagged.
   */
  ghost predicate StepOf(c: Candidate, adjOne: set<nat>, keepFirst: bool, flagged: bool, uf: seq<nat>,
                         flagged': bool, uf': seq<nat>)
  {
    && Valid(uf) && c.labelOne < |uf| && c.labelTwo < |uf|
    && flagged' == (flagged || Conflict(adjOne, c.labelTwo, uf))
    && uf' == if flagged' then uf else Union(uf, c.labelOne, c.labelTwo, keepFirst)
  }

  /** Step k of the loop, read off the forests before and after it and the final flags. */
  ghost predicate StepAt(cands: seq<Candidate>, adj: seq<set<nat>>, keepFirst: seq<bool>, collapsed0: seq<bool>,
                         order: seq<nat>, ufs: seq<seq<nat>>, collapsed: seq<bool>, k: nat)
  {
    && k < |order| && k + 1 < |ufs|
    && order[k] < |cands| && order[k] < |keepFirst| && order[k] < |collapsed0| && order[k] < |collapsed|
    && cands[order[k]].labelOne < |adj|
    && StepOf(cands[order[k]], adj[cands[order[k]].labelOne], keepFirst[order[k]], collapsed0[order[k]],
              ufs[k], collapsed[order[k]], ufs[k + 1])
  }

  /** The forests after each of the first k visits, starting from singletons. */
  ghost predicate History(cands: seq<Candidate>, adj: seq<set<nat>>, keepFirst: seq<bool>, collapsed0: seq<bool>,
                          order: seq<nat>, n: nat, ufs: seq<seq<nat>>, collapsed: seq<bool>, k: nat)
  {
    && k <= |order| && |ufs| == k + 1 && ufs[0] == MakeSets(n)
    && forall j :: 0 <= j < k ==> StepAt(cands, adj, keepFirst, collapsed0, order, ufs, collapsed, j)
  }

  /**
   * The whole greedy run: every edge of the order visited in turn from n
   * singleton sets, and every edge outside the order keeping its flag.
   */
  ghost predicate Greedy(cands: seq<Candidate>, adj: seq<set<nat>>, keepFirst: seq<bool>, collapsed0: seq<bool>,
                         order: seq<nat>, n: nat, ufs: seq<seq<nat>>, collapsed: seq<bool>)
  {
    && History(cands, adj, keepFirst, collapsed0, order, n, ufs, collapsed, |order|)
    && |collapsed| == |collapsed0|
    && forall i :: |order| <= i < |collapsed0| ==> collapsed[i] == collapsed0[i]
  }

  /** Recording visit k extends the history by one forest. */
  lemma HistoryStep(cands: seq<Candidate>, adj: seq<set<nat>>, keepFirst: seq<bool>, p: seq<real>,
                    collapsed0: seq<bool>, order: seq<nat>, n: nat, ufs: seq<seq<nat>>, collapsed: seq<bool>,
                    k: nat, uf': seq<nat>, flag: bool)
    requires History(cands, adj, keepFirst, collapsed0, order, n, ufs, collapsed, k) && k < |order|
    requires VisitOrder.Descending(p, order)
    requires var ie := order[k];
      && ie < |cands| && ie < |collapsed0| && ie < |keepFirst| && ie < |collapsed|
      && cands[ie].labelOne < |adj|
      && StepOf(cands[ie], adj[cands[ie].labelOne], keepFirst[ie], collapsed0[ie], ufs[k], flag, uf')
    ensures History(cands, adj, keepFirst, collapsed0, order, n, ufs + [uf'], collapsed[order[k] := flag], k + 1)
  {
    var ie := order[k];
    var ufs', collapsed' := ufs + [uf'], collapsed[ie := flag];
    FreshIndex(p, order, k);
    forall j | 0 <= j < k + 1
      ensures StepAt(cands, adj, keepFirst, collapsed0, order, ufs', collapsed', j)
    {
      if j < k {
        assert order[j] in order[..k];
        assert StepAt(cands, adj, keepFirst, collapsed0, order, ufs, collapsed, j);
        assert ufs'[j] == ufs[j] && ufs'[j + 1] == ufs[j + 1];
      }
    }
  }

  /**
   * The run is determined by its inputs: two runs over the same order,
   * flags, candidates and survivor choices leave the same forests and the
   * same flags, however ties in probability were broken by the sort.
   */
  lemma GreedyDetermined(cands: seq<Candidate>, adj: seq<set<nat>>, keepFirst: seq<bool>, collapsed0: seq<bool>,
                         order: seq<nat>, n: nat, ufs1: seq<seq<nat>>, c1: seq<bool>, ufs2: seq<seq<nat>>, c2: seq<bool>)
    requires Greedy(cands, adj, keepFirst, collapsed0, order, n, ufs1, c1)
    requires Greedy(cands, adj, keepFirst, collapsed0, order, n, ufs2, c2)
    requires forall x: nat :: x < |order| ==> x in order
    ensures ufs1 == ufs2 && c1 == c2
  {
    SameForests(cands, adj, keepFirst, collapsed0, order, n, ufs1, c1, ufs2, c2, |order|);
    forall i | 0 <= i < |c1|
      ensures c1[i] == c2[i]
    {
      if i < |order| {
        assert i in order;
        var k :| 0 <= k < |order| && order[k] == i;
        assert StepAt(cands, adj, keepFirst, collapsed0, order, ufs1, c1, k);
        assert StepAt(cands, adj, keepFirst, collapsed0, order, ufs2, c2, k);
      }
    }
  }

  lemma {:induction false} SameForests(cands: seq<Candidate>, adj: seq<set<nat>>, keepFirst: seq<bool>,
                                       collapsed0: seq<bool>, order: seq<nat>, n: nat,
                                       ufs1: seq<seq<nat>>, c1: seq<bool>, ufs2: seq<seq<nat>>, c2: seq<bool>, k: nat)
    requires History(cands, adj, keepFirst, collapsed0, order, n, ufs1, c1, |order|)
    requires History(cands, adj, keepFirst, collapsed0, order, n, ufs2, c2, |order|)
    requires k <= |order|
    ensures ufs1[..k + 1] == ufs2[..k + 1]
  {
    if k > 0 {
      SameForests(cands, adj, keepFirst, collapsed0, order, n, ufs1, c1, ufs2, c2, k - 1);
      assert ufs1[k - 1] == ufs1[..k][k - 1] == ufs2[..k][k - 1] == ufs2[k - 1];
      assert StepAt(cands, adj, keepFirst, collapsed0, order, ufs1, c1, k - 1);
      assert StepAt(cands, adj, keepFirst, collapsed0, order, ufs2, c2, k - 1);
      assert ufs1[..k + 1] == ufs1[..k] + [ufs1[k]];
      assert ufs2[..k + 1] == ufs2[..k] + [ufs2[k]];
    }
  }

  /** The k-th label of a descending order is not among the ones before it. */
  lemma FreshIndex(p: seq<real>, order: seq<nat>, k: nat)
    requires VisitOrder.Descending(p, order) && k < |order|
    ensures order[k] !in order[..k]
  {
    forall j | 0 <= j < k
      ensures order[j] != order[k]
    {
      assert VisitOrder.Above(p, order[j], order[k]);
    }
  }
}
