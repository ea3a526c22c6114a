/**
 * The candidate-pair loop of `GenerateFeatures`: for every skeleton, scan the
 * windows around its endpoints, turn each label found above the skeleton's
 * own label into a candidate at the recorded midpoint, and route it to the
 * positive, negative or undetermined list by the segmentation-to-gold
 * mapping of the window around that midpoint.
 *
 * The windows are given (cutting them out of the volume is not modelled),
 * as is the mapping: `gold(p, l)` is the gold label the mapping computed
 * around midpoint p assigns to segment l, 0 when it has none. The search is
 * proved for any per-window distance and initial "max_distance"
 * (`sentinel`); `GenerateCandidates` uses the squared world distance from
 * the endpoint and the squared grid extent.
 */
module Generate {
  import opened Wrappers
  import opened Candidates
  import opened Neighbors

  datatype Endpoint = Endpoint(window: Window, centroid: Point)

  /** A distance for the voxels of each window, which may depend on the window's shape. */
  type Metric = Window -> Offset -> nat

  datatype Skeleton = Skeleton(ownLabel: nat, endpoints: seq<Endpoint>)

  type GoldMap = (Point, nat) -> nat

  datatype PairError = ZeroCoordinate(labelOne: nat, labelTwo: nat)   // the assert on line 161

  datatype Class = Positive | Negative | Undetermined

  datatype Lists = Lists(positive: seq<Candidate>, negative: seq<Candidate>, undetermined: seq<Candidate>)

  /** Every endpoint window is well formed and its labels index the search state. */
  ghost predicate ValidEndpoints(eps: seq<Endpoint>, maxLabel: nat)
  {
    forall e :: 0 <= e < |eps| ==> WellShaped(eps[e].window) && WindowLabelsBelow(eps[e].window, maxLabel)
  }

  /** Voxel k of endpoint e's window is a usable neighbour of l for the skeleton's label. */
  ghost predicate QualifiesAt(geo: Geometry, sk: Skeleton, e: nat, k: nat, l: nat)
    requires e < |sk.endpoints| && WellShaped(sk.endpoints[e].window)
  {
    var ep := sk.endpoints[e];
    k < |Scan(ep.window)| && Qualifies(geo, ep.window, ep.centroid, sk.ownLabel, Scan(ep.window)[k], l)
  }

  function DistAt(sk: Skeleton, e: nat, k: nat, dist: Metric): nat
    requires e < |sk.endpoints| && k < |Scan(sk.endpoints[e].window)|
  {
    dist(sk.endpoints[e].window)(Scan(sk.endpoints[e].window)[k])
  }

  /** The recorded distance and midpoint of l come from voxel k of endpoint e. */
  ghost predicate WonAt(geo: Geometry, sk: Skeleton, dist: Metric, near: Nearest, l: nat, e: nat, k: nat)
    requires e < |sk.endpoints| && WellShaped(sk.endpoints[e].window)
    requires l < |near.distance| && l < |near.point|
  {
    var ep := sk.endpoints[e];
    WonBy(geo, ep.window, ep.centroid, sk.ownLabel, dist(ep.window), near, l, k)
  }

  /** The search state after the first `done` endpoints of the skeleton. */
  ghost predicate SearchInv(sk: Skeleton, done: nat, near: Nearest, maxLabel: nat, sentinel: nat,
                            geo: Geometry, dist: Metric)
    requires done <= |sk.endpoints| && ValidEndpoints(sk.endpoints, maxLabel)
  {
    && |near.distance| == maxLabel && |near.point| == maxLabel
    && (forall l :: 0 <= l < maxLabel ==> near.distance[l] <= sentinel)
    && (forall l :: 0 <= l < maxLabel && near.distance[l] == sentinel ==> near.point[l] == Point(0, 0, 0))
    && (sk.ownLabel < maxLabel ==> near.distance[sk.ownLabel] == sentinel)
    && (forall l, e, k :: 0 <= l < maxLabel && 0 <= e < done && QualifiesAt(geo, sk, e, k, l) ==>
          near.distance[l] <= DistAt(sk, e, k, dist))
    && (forall l :: 0 <= l < maxLabel && near.distance[l] != sentinel ==>
          exists e: nat, k: nat :: e < done && WonAt(geo, sk, dist, near, l, e, k) && EarlierFarther(geo, sk, dist, near, l, e))
  }

  /**
   * Every qualifying voxel of l in the windows of the endpoints before e is
   * strictly farther than the recorded distance: with the strict comparison
   * of line 90 on state shared by all endpoints, a tie goes to the earliest
   * endpoint.
   */
  ghost predicate EarlierFarther(geo: Geometry, sk: Skeleton, dist: Metric, near: Nearest, l: nat, e: nat)
    requires e <= |sk.endpoints| && l < |near.distance|
  {
    forall e', k :: 0 <= e' < e && WellShaped(sk.endpoints[e'].window) && QualifiesAt(geo, sk, e', k, l) ==>
      DistAt(sk, e', k, dist) > near.distance[l]
  }

  /** One more endpoint scanned: the guarantees of `ExtractNeighbors` extend the invariant. */
  lemma SearchStep(sk: Skeleton, e: nat, before: Nearest, near: Nearest, maxLabel: nat, sentinel: nat,
                   geo: Geometry, dist: Metric)
    requires e < |sk.endpoints| && ValidEndpoints(sk.endpoints, maxLabel)
    requires SearchInv(sk, e, before, maxLabel, sentinel, geo, dist)
    requires var ep := sk.endpoints[e]; var S := Scan(ep.window);
      && |near.distance| == maxLabel && |near.point| == maxLabel
      && (forall l :: 0 <= l < maxLabel ==> near.distance[l] <= before.distance[l])
      && (forall l, k :: 0 <= l < maxLabel && 0 <= k < |S| && Qualifies(geo, ep.window, ep.centroid, sk.ownLabel, S[k], l) ==>
            near.distance[l] <= dist(ep.window)(S[k]))
      && (forall l :: 0 <= l < maxLabel && near.distance[l] < before.distance[l] ==>
            exists k: nat :: WonBy(geo, ep.window, ep.centroid, sk.ownLabel, dist(ep.window), near, l, k))
      && (forall l :: 0 <= l < maxLabel && near.distance[l] == before.distance[l] ==> near.point[l] == before.point[l])
      && (sk.ownLabel < maxLabel ==> near.distance[sk.ownLabel] == before.distance[sk.ownLabel])
    ensures SearchInv(sk, e + 1, near, maxLabel, sentinel, geo, dist)
  {
    var ep := sk.endpoints[e];
    forall l | 0 <= l < maxLabel && near.distance[l] != sentinel
      ensures exists e': nat, k: nat ::
        e' < e + 1 && WonAt(geo, sk, dist, near, l, e', k) && EarlierFarther(geo, sk, dist, near, l, e')
    {
      if near.distance[l] < before.distance[l] {
        var k: nat :| WonBy(geo, ep.window, ep.centroid, sk.ownLabel, dist(ep.window), near, l, k);
        assert WonAt(geo, sk, dist, near, l, e, k);
        forall e', k' | 0 <= e' < e && WellShaped(sk.endpoints[e'].window) && QualifiesAt(geo, sk, e', k', l)
          ensures DistAt(sk, e', k', dist) > near.distance[l]
        {
          assert before.distance[l] <= DistAt(sk, e', k', dist);
        }
        assert EarlierFarther(geo, sk, dist, near, l, e);
      } else {
        var e': nat, k: nat :| e' < e && WonAt(geo, sk, dist, before, l, e', k)
          && EarlierFarther(geo, sk, dist, before, l, e');
        assert WonAt(geo, sk, dist, near, l, e', k);
        assert EarlierFarther(geo, sk, dist, near, l, e');
      }
    }
  }

  /** Recorded midpoints are enclosed: each is the midpoint of a qualifying voxel. */
  lemma SearchEnclosed(sk: Skeleton, near: Nearest, maxLabel: nat, sentinel: nat, geo: Geometry, dist: Metric)
    requires ValidEndpoints(sk.endpoints, maxLabel)
    requires SearchInv(sk, |sk.endpoints|, near, maxLabel, sentinel, geo, dist)
    ensures forall l :: 0 <= l < maxLabel && near.distance[l] != sentinel ==> Enclosed(geo, near.point[l])
  {
    forall l | 0 <= l < maxLabel && near.distance[l] != sentinel
      ensures Enclosed(geo, near.point[l])
    {
      var e: nat, k: nat :| e < |sk.endpoints| && WonAt(geo, sk, dist, near, l, e, k)
        && EarlierFarther(geo, sk, dist, near, l, e);
    }
  }

  /**
   * The scans of all endpoints of one skeleton (lines 142-153), starting from
   * the sentinel distance and a zero midpoint for every label.
   */
  method SearchLabel(sk: Skeleton, maxLabel: nat, sentinel: nat, geo: Geometry, dist: Metric)
    returns (near: Nearest)
    requires ValidEndpoints(sk.endpoints, maxLabel)
    ensures |near.distance| == maxLabel && |near.point| == maxLabel
    ensures forall l :: 0 <= l < maxLabel ==> near.distance[l] <= sentinel
    ensures forall l :: 0 <= l < maxLabel && near.distance[l] == sentinel ==> near.point[l] == Point(0, 0, 0)
    ensures forall l :: 0 <= l < maxLabel && near.distance[l] != sentinel ==> Enclosed(geo, near.point[l])
    ensures sk.ownLabel < maxLabel ==> near.distance[sk.ownLabel] == sentinel
    ensures forall l, e, k :: 0 <= l < maxLabel && 0 <= e < |sk.endpoints| && QualifiesAt(geo, sk, e, k, l) ==>
      near.distance[l] <= DistAt(sk, e, k, dist)
    ensures forall l :: 0 <= l < maxLabel && near.distance[l] != sentinel ==>
      exists e: nat, k: nat :: e < |sk.endpoints| && WonAt(geo, sk, dist, near, l, e, k)
        && EarlierFarther(geo, sk, dist, near, l, e)
  {
    near := Nearest(seq(maxLabel, _ => sentinel), seq(maxLabel, _ => Point(0, 0, 0)));
    for e := 0 to |sk.endpoints|
      invariant SearchInv(sk, e, near, maxLabel, sentinel, geo, dist)
    {
      var ep := sk.endpoints[e];
      ghost var before := near;
      near := ExtractNeighbors(ep.window, sk.ownLabel, near, geo, dist(ep.window), ep.centroid);
      SearchStep(sk, e, before, near, maxLabel, sentinel, geo, dist);
    }
    SearchEnclosed(sk, near, maxLabel, sentinel, geo, dist);
  }

  /** What `SearchLabel` guarantees about its result, as one predicate. */
  ghost predicate SearchResult(sk: Skeleton, maxLabel: nat, sentinel: nat, geo: Geometry, dist: Metric,
                               near: Nearest)
    requires ValidEndpoints(sk.endpoints, maxLabel)
  {
    && |near.distance| == maxLabel && |near.point| == maxLabel
    && (forall l :: 0 <= l < maxLabel ==> near.distance[l] <= sentinel)
    && (forall l :: 0 <= l < maxLabel && near.distance[l] == sentinel ==> near.point[l] == Point(0, 0, 0))
    && (forall l, e, k :: 0 <= l < maxLabel && 0 <= e < |sk.endpoints| && QualifiesAt(geo, sk, e, k, l) ==>
          near.distance[l] <= DistAt(sk, e, k, dist))
    && (forall l :: 0 <= l < maxLabel && near.distance[l] != sentinel ==>
          exists e: nat, k: nat :: e < |sk.endpoints| && WonAt(geo, sk, dist, near, l, e, k)
            && EarlierFarther(geo, sk, dist, near, l, e))
  }

  /** A found label's entry is the same in any two results of the search. */
  lemma SameFound(sk: Skeleton, maxLabel: nat, sentinel: nat, geo: Geometry, dist: Metric,
                  a: Nearest, b: Nearest, l: nat)
    requires ValidEndpoints(sk.endpoints, maxLabel)
    requires SearchResult(sk, maxLabel, sentinel, geo, dist, a)
    requires SearchResult(sk, maxLabel, sentinel, geo, dist, b)
    requires l < maxLabel && a.distance[l] != sentinel
    ensures b.distance[l] == a.distance[l] && b.point[l] == a.point[l]
  {
    var ea: nat, ka: nat :| ea < |sk.endpoints| && WonAt(geo, sk, dist, a, l, ea, ka)
      && EarlierFarther(geo, sk, dist, a, l, ea);
    assert QualifiesAt(geo, sk, ea, ka, l) && DistAt(sk, ea, ka, dist) == a.distance[l];
    assert b.distance[l] != sentinel;
    var eb: nat, kb: nat :| eb < |sk.endpoints| && WonAt(geo, sk, dist, b, l, eb, kb)
      && EarlierFarther(geo, sk, dist, b, l, eb);
    assert QualifiesAt(geo, sk, eb, kb, l) && DistAt(sk, eb, kb, dist) == b.distance[l];
    assert b.distance[l] == a.distance[l];
    assert ea == eb;
    assert ka == kb;
  }

  /**
   * The search result is unique: the minimum distance, the first winning
   * endpoint and the first winning voxel of its scan fix every entry.
   */
  lemma SearchDetermined(sk: Skeleton, maxLabel: nat, sentinel: nat, geo: Geometry, dist: Metric,
                         a: Nearest, b: Nearest)
    requires ValidEndpoints(sk.endpoints, maxLabel)
    requires SearchResult(sk, maxLabel, sentinel, geo, dist, a)
    requires SearchResult(sk, maxLabel, sentinel, geo, dist, b)
    ensures a == b
  {
    forall l | 0 <= l < maxLabel
      ensures a.distance[l] == b.distance[l] && a.point[l] == b.point[l]
    {
      if a.distance[l] != sentinel {
        SameFound(sk, maxLabel, sentinel, geo, dist, a, b, l);
      } else if b.distance[l] != sentinel {
        SameFound(sk, maxLabel, sentinel, geo, dist, b, a, l);
      }
    }
    assert a.distance == b.distance && a.point == b.point;
  }

  /** A label is paired exactly when some endpoint saw a usable voxel of it closer than the sentinel. */
  lemma FoundIffSeen(sk: Skeleton, maxLabel: nat, sentinel: nat, geo: Geometry, dist: Metric,
                     near: Nearest, l: nat)
    requires ValidEndpoints(sk.endpoints, maxLabel)
    requires |near.distance| == maxLabel && |near.point| == maxLabel && l < maxLabel
    requires near.distance[l] <= sentinel
    requires forall e, k :: 0 <= e < |sk.endpoints| && QualifiesAt(geo, sk, e, k, l) ==>
      near.distance[l] <= DistAt(sk, e, k, dist)
    requires near.distance[l] != sentinel ==>
      exists e: nat, k: nat :: e < |sk.endpoints| && WonAt(geo, sk, dist, near, l, e, k)
    ensures near.distance[l] != sentinel <==>
      exists e: nat, k: nat :: e < |sk.endpoints| && QualifiesAt(geo, sk, e, k, l) && DistAt(sk, e, k, dist) < sentinel
  {
    if near.distance[l] != sentinel {
      var e: nat, k: nat :| e < |sk.endpoints| && WonAt(geo, sk, dist, near, l, e, k);
      assert QualifiesAt(geo, sk, e, k, l) && DistAt(sk, e, k, dist) < sentinel;
    }
  }

  /** The distance `GenerateCandidates` scans with: squared, in world units, from the endpoint. */
  function WorldDistance(res: Resolution): Metric
  {
    w => o => CentredDistance(res, w, o)
  }

  /** Every endpoint window is no larger than the grid, as a slice of the volume is. */
  predicate WindowsFit(eps: seq<Endpoint>, gridSize: Offset)
  {
    forall e :: 0 <= e < |eps| ==>
      eps[e].window.zres <= gridSize.z && eps[e].window.yres <= gridSize.y && eps[e].window.xres <= gridSize.x
  }

  /**
   * With the squared distance from the endpoint and the grid-extent sentinel, a label is found
   * exactly when some endpoint's window holds a qualifying voxel of it: the
   * sentinel hides nothing.
   */
  lemma FoundIffQualifies(sk: Skeleton, maxLabel: nat, res: Resolution, geo: Geometry, near: Nearest, l: nat)
    requires ValidEndpoints(sk.endpoints, maxLabel) && WindowsFit(sk.endpoints, geo.gridSize)
    requires res.z > 0 && res.y > 0 && res.x > 0
    requires |near.distance| == maxLabel && |near.point| == maxLabel && l < maxLabel
    requires near.distance[l] <= Sentinel(res, geo.gridSize)
    requires forall e, k :: 0 <= e < |sk.endpoints| && QualifiesAt(geo, sk, e, k, l) ==>
      near.distance[l] <= DistAt(sk, e, k, WorldDistance(res))
    requires near.distance[l] != Sentinel(res, geo.gridSize) ==>
      exists e: nat, k: nat :: e < |sk.endpoints| && WonAt(geo, sk, WorldDistance(res), near, l, e, k)
    ensures near.distance[l] != Sentinel(res, geo.gridSize) <==>
      exists e: nat, k: nat :: e < |sk.endpoints| && QualifiesAt(geo, sk, e, k, l)
  {
    var sentinel, dist := Sentinel(res, geo.gridSize), WorldDistance(res);
    FoundIffSeen(sk, maxLabel, sentinel, geo, dist, near, l);
    if e: nat, k: nat :| e < |sk.endpoints| && QualifiesAt(geo, sk, e, k, l) {
      var w := sk.endpoints[e].window;
      var o := Scan(w)[k];
      BelowSentinel(res, geo.gridSize, w, o);
      assert DistAt(sk, e, k, dist) < sentinel;
    }
  }

  predicate NoZeroCoordinate(p: Point)
  {
    p.z != 0 && p.y != 0 && p.x != 0
  }

  /** The labels above `from` that the search found. */
  function Found(near: Nearest, sentinel: nat, from: nat): set<nat>
  {
    set l2 | from <= l2 < |near.distance| && near.distance[l2] != sentinel
  }

  function Seconds(cs: seq<Candidate>): set<nat>
  {
    set c | c in cs :: c.labelTwo
  }

  /**
   * The candidates for label_two in [from, max_label) (lines 156-174), in
   * increasing label_two order; fails as the assert on line 161 does when a
   * recorded midpoint has a zero coordinate.
   */
  function PairsFrom(labelOne: nat, near: Nearest, sentinel: nat, gold: GoldMap, from: nat)
    : (r: Result<seq<Candidate>, PairError>)
    requires |near.point| == |near.distance|
    decreases |near.distance| - from
    ensures r.Success? <==> forall l2 :: l2 in Found(near, sentinel, from) ==> NoZeroCoordinate(near.point[l2])
    ensures r.Success? ==> Seconds(r.value) == Found(near, sentinel, from)
    ensures r.Success? ==> forall i, j :: 0 <= i < j < |r.value| ==> r.value[i].labelTwo < r.value[j].labelTwo
    ensures r.Success? ==> forall c :: c in r.value ==>
      && c.labelOne == labelOne
      && c.labelTwo in Found(near, sentinel, from)
      && c.location == near.point[c.labelTwo]
      && c.groundTruth == (gold(c.location, labelOne) == gold(c.location, c.labelTwo))
  {
    if from >= |near.distance| then
      assert Found(near, sentinel, from) == {};
      Success([])
    else
      var rest := PairsFrom(labelOne, near, sentinel, gold, from + 1);
      assert Found(near, sentinel, from) == Found(near, sentinel, from + 1) +
        (if near.distance[from] != sentinel then {from} else {});
      if near.distance[from] == sentinel then rest
      else
        var mid := near.point[from];
        if !NoZeroCoordinate(mid) then Failure(ZeroCoordinate(labelOne, from))
        else if rest.Failure? then rest
        else
          var c := Candidate(labelOne, from, mid, gold(mid, labelOne) == gold(mid, from));
          assert Seconds([c] + rest.value) == {from} + Seconds(rest.value);
          Success([c] + rest.value)
  }

  /** The list a candidate goes to (lines 175-180): undetermined when either gold label is 0. */
  function Route(c: Candidate, gold: GoldMap): Class
  {
    if gold(c.location, c.labelOne) == 0 || gold(c.location, c.labelTwo) == 0 then Undetermined
    else if c.groundTruth then Positive
    else Negative
  }

  /** Candidates whose flag is the gold-mapping equality, as `PairsFrom` makes them. */
  predicate Labelled(c: Candidate, gold: GoldMap)
  {
    c.groundTruth == (gold(c.location, c.labelOne) == gold(c.location, c.labelTwo))
  }

  /** For a labelled candidate the route is decided by the two gold labels alone. */
  lemma RouteByGold(c: Candidate, gold: GoldMap)
    requires Labelled(c, gold)
    ensures var m1, m2 := gold(c.location, c.labelOne), gold(c.location, c.labelTwo);
      && (Route(c, gold) == Undetermined <==> m1 == 0 || m2 == 0)
      && (Route(c, gold) == Positive <==> m1 != 0 && m2 != 0 && m1 == m2)
      && (Route(c, gold) == Negative <==> m1 != 0 && m2 != 0 && m1 != m2)
  {
  }

  /** The candidates of `cs` routed to `k`, in their original order. */
  function Select(cs: seq<Candidate>, gold: GoldMap, k: Class): (r: seq<Candidate>)
    ensures forall c :: c in r <==> c in cs && Route(c, gold) == k
  {
    if |cs| == 0 then []
    else
      var rest := Select(cs[1..], gold, k);
      assert forall c :: c in cs <==> c == cs[0] || c in cs[1..];
      if Route(cs[0], gold) == k then [cs[0]] + rest else rest
  }

  /** Every candidate lands in exactly one of the three lists, as often as it occurs. */
  lemma {:induction false} SelectPartitions(cs: seq<Candidate>, gold: GoldMap)
    ensures multiset(Select(cs, gold, Positive)) + multiset(Select(cs, gold, Negative))
      + multiset(Select(cs, gold, Undetermined)) == multiset(cs)
  {
    if |cs| > 0 {
      SelectPartitions(cs[1..], gold);
      assert cs == [cs[0]] + cs[1..];
    }
  }

  /**
   * Routes each candidate of `cs`, in order, onto the end of its list: the
   * three lists split the input and each holds exactly the candidates of
   * its route.
   */
  function Classify(cs: seq<Candidate>, gold: GoldMap): (r: Lists)
    ensures multiset(r.positive) + multiset(r.negative) + multiset(r.undetermined) == multiset(cs)
    ensures forall c :: c in r.positive <==> c in cs && Route(c, gold) == Positive
    ensures forall c :: c in r.negative <==> c in cs && Route(c, gold) == Negative
    ensures forall c :: c in r.undetermined <==> c in cs && Route(c, gold) == Undetermined
  {
    SelectPartitions(cs, gold);
    Lists(Select(cs, gold, Positive), Select(cs, gold, Negative), Select(cs, gold, Undetermined))
  }

  /** What every candidate in the output satisfies. */
  ghost predicate WellFormed(c: Candidate, maxLabel: nat, geo: Geometry, gold: GoldMap)
  {
    && c.labelOne < c.labelTwo < maxLabel
    && Enclosed(geo, c.location)
    && NoZeroCoordinate(c.location)
    && Labelled(c, gold)
  }

  ghost predicate ListsWellFormed(ls: Lists, maxLabel: nat, geo: Geometry, gold: GoldMap)
  {
    && (forall c :: c in ls.positive ==> WellFormed(c, maxLabel, geo, gold) && Route(c, gold) == Positive)
    && (forall c :: c in ls.negative ==> WellFormed(c, maxLabel, geo, gold) && Route(c, gold) == Negative)
    && (forall c :: c in ls.undetermined ==> WellFormed(c, maxLabel, geo, gold) && Route(c, gold) == Undetermined)
  }

  /** The three lists with `more` appended to each. */
  function Append(ls: Lists, more: Lists): Lists
  {
    Lists(ls.positive + more.positive, ls.negative + more.negative, ls.undetermined + more.undetermined)
  }

  /** The search results are complete for the skeletons they belong to. */
  ghost predicate Searched(skeletons: seq<Skeleton>, maxLabel: nat, sentinel: nat, geo: Geometry, dist: Metric,
                           nears: seq<Nearest>)
  {
    && |nears| <= |skeletons|
    && forall s :: 0 <= s < |nears| ==>
         ValidEndpoints(skeletons[s].endpoints, maxLabel)
         && SearchResult(skeletons[s], maxLabel, sentinel, geo, dist, nears[s])
  }

  function PairsOf(sk: Skeleton, near: Nearest, sentinel: nat, gold: GoldMap): Result<seq<Candidate>, PairError>
    requires |near.point| == |near.distance|
  {
    PairsFrom(sk.ownLabel, near, sentinel, gold, sk.ownLabel + 1)
  }

  /**
   * The lists the loop builds from given per-skeleton search results: the
   * routed pairs of each skeleton in turn, or the error of the first skeleton
   * whose pairs fail.
   */
  function Collect(skeletons: seq<Skeleton>, nears: seq<Nearest>, sentinel: nat, gold: GoldMap)
    : (r: Result<Lists, PairError>)
    requires |nears| == |skeletons|
    requires forall s :: 0 <= s < |nears| ==> |nears[s].point| == |nears[s].distance|
    ensures r.Failure? <==> exists s :: 0 <= s < |skeletons| && PairsOf(skeletons[s], nears[s], sentinel, gold).Failure?
  {
    if |skeletons| == 0 then Success(Lists([], [], []))
    else
      var n := |skeletons| - 1;
      var before := Collect(skeletons[..n], nears[..n], sentinel, gold);
      assert forall s :: 0 <= s < n ==> skeletons[..n][s] == skeletons[s] && nears[..n][s] == nears[s];
      if before.Failure? then before
      else
        var pairs := PairsOf(skeletons[n], nears[n], sentinel, gold);
        if pairs.Failure? then Failure(pairs.error)
        else Success(Append(before.value, Classify(pairs.value, gold)))
  }

  /** One more skeleton: its pairs fail the whole result, or are routed onto the end of the lists. */
  lemma CollectStep(skeletons: seq<Skeleton>, nears: seq<Nearest>, near: Nearest, sentinel: nat,
                    gold: GoldMap, lists: Lists)
    requires |nears| < |skeletons| && |near.point| == |near.distance|
    requires forall s :: 0 <= s < |nears| ==> |nears[s].point| == |nears[s].distance|
    requires Collect(skeletons[..|nears|], nears, sentinel, gold) == Success(lists)
    ensures var pairs := PairsOf(skeletons[|nears|], near, sentinel, gold);
      Collect(skeletons[..|nears| + 1], nears + [near], sentinel, gold)
        == if pairs.Failure? then Failure(pairs.error) else Success(Append(lists, Classify(pairs.value, gold)))
  {
    var n := |nears|;
    assert skeletons[..n + 1][..n] == skeletons[..n] && (nears + [near])[..n] == nears;
  }

  /** A search result for the next skeleton extends the completed results. */
  lemma SearchedStep(skeletons: seq<Skeleton>, maxLabel: nat, sentinel: nat, geo: Geometry, dist: Metric,
                     nears: seq<Nearest>, near: Nearest)
    requires |nears| < |skeletons| && Searched(skeletons, maxLabel, sentinel, geo, dist, nears)
    requires ValidEndpoints(skeletons[|nears|].endpoints, maxLabel)
    requires SearchResult(skeletons[|nears|], maxLabel, sentinel, geo, dist, near)
    ensures Searched(skeletons, maxLabel, sentinel, geo, dist, nears + [near])
  {
  }

  /** One skeleton's search (lines 141-153) and its pairs (lines 156-174). */
  method SkeletonPairs(sk: Skeleton, maxLabel: nat, res: Resolution, geo: Geometry, gold: GoldMap)
    returns (near: Nearest, pairs: Result<seq<Candidate>, PairError>)
    requires ValidEndpoints(sk.endpoints, maxLabel)
    ensures SearchResult(sk, maxLabel, Sentinel(res, geo.gridSize), geo, WorldDistance(res), near)
    ensures pairs == PairsOf(sk, near, Sentinel(res, geo.gridSize), gold)
    ensures pairs.Success? ==> forall c :: c in pairs.value ==> WellFormed(c, maxLabel, geo, gold)
  {
    var sentinel := Sentinel(res, geo.gridSize);
    near := SearchLabel(sk, maxLabel, sentinel, geo, WorldDistance(res));
    pairs := PairsOf(sk, near, sentinel, gold);
  }

  /**
   * The pair loop of `GenerateFeatures` (lines 138-180) over all skeletons.
   * `maxLabel` is max(segmentation) + 1. `nears` holds the search result of
   * each skeleton visited, one for every skeleton unless a pair fails.
   */
  method GenerateCandidates(skeletons: seq<Skeleton>, maxLabel: nat, res: Resolution, geo: Geometry,
                            gold: GoldMap)
    returns (r: Result<Lists, PairError>, nears: seq<Nearest>)
    requires forall s :: 0 <= s < |skeletons| ==> ValidEndpoints(skeletons[s].endpoints, maxLabel)
    ensures Searched(skeletons, maxLabel, Sentinel(res, geo.gridSize), geo, WorldDistance(res), nears)
    ensures r.Success? ==> |nears| == |skeletons|
    ensures r == Collect(skeletons[..|nears|], nears, Sentinel(res, geo.gridSize), gold)
    ensures r.Success? <==> (
      && |nears| == |skeletons|
      && forall s :: 0 <= s < |nears| ==> PairsOf(skeletons[s], nears[s], Sentinel(res, geo.gridSize), gold).Success?)
    ensures r.Success? ==> ListsWellFormed(r.value, maxLabel, geo, gold)
  {
    var sentinel := Sentinel(res, geo.gridSize);
    var lists := Lists([], [], []);
    nears := [];
    for s := 0 to |skeletons|
      invariant |nears| == s
      invariant Searched(skeletons, maxLabel, sentinel, geo, WorldDistance(res), nears)
      invariant Collect(skeletons[..s], nears, sentinel, gold) == Success(lists)
      invariant ListsWellFormed(lists, maxLabel, geo, gold)
    {
      var near, pairs := SkeletonPairs(skeletons[s], maxLabel, res, geo, gold);
      CollectStep(skeletons, nears, near, sentinel, gold, lists);
      SearchedStep(skeletons, maxLabel, sentinel, geo, WorldDistance(res), nears, near);
      nears := nears + [near];
      if pairs.Failure? {
        return Failure(pairs.error), nears;
      }
      var routed := Classify(pairs.value, gold);
      lists := Append(lists, routed);
    }
    assert skeletons[..|skeletons|] == skeletons;
    return Success(lists), nears;
  }
}
