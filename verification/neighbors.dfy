/**
 * The nearest-neighbour scan `ExtractNeighbors`: over a window of the
 * segmentation around one skeleton endpoint, keep for every other label the
 * closest voxel whose network-radius box around the translated midpoint lies
 * inside the whole grid.
 *
 * The scan itself is proved for any distance function of the window-local
 * offset. The distance the source writes, `(res * i) ^ 2 + ...`, is bitwise
 * XOR in Python, with `+` binding tighter than `^`, and it is measured from
 * the window's corner (offset 0, 0, 0). `DistanceAsWritten` models it as
 * written, `SquaredDistance` with squares but still from the corner, and
 * `CentredDistance` the evident intent: the squared world distance from the
 * window's centre, the endpoint.
 */
module Neighbors {
  import opened Candidates

  /** A window-local voxel index (iz, iy, ix). */
  datatype Offset = Offset(z: nat, y: nat, x: nat)

  /** A window of the segmentation, voxels[z][y][x], of shape zres x yres x xres. */
  datatype Window = Window(zres: nat, yres: nat, xres: nat, voxels: seq<seq<seq<nat>>>)

  /** The run-wide geometry: the network radii and the shape of the whole grid. */
  datatype Geometry = Geometry(networkRadii: Point, gridSize: Offset)

  /** The world resolution of a voxel along z, y and x. */
  datatype Resolution = Resolution(z: nat, y: nat, x: nat)

  /** The per-label search state: smallest distance so far and the midpoint that gave it. */
  datatype Nearest = Nearest(distance: seq<nat>, point: seq<Point>)

  predicate WellShaped(w: Window)
  {
    && |w.voxels| == w.zres
    && (forall z :: 0 <= z < w.zres ==> |w.voxels[z]| == w.yres)
    && (forall z, y :: 0 <= z < w.zres && 0 <= y < w.yres ==> |w.voxels[z][y]| == w.xres)
  }

  predicate InWindow(w: Window, o: Offset)
  {
    o.z < w.zres && o.y < w.yres && o.x < w.xres
  }

  function LabelAt(w: Window, o: Offset): nat
    requires WellShaped(w) && InWindow(w, o)
  {
    w.voxels[o.z][o.y][o.x]
  }

  /** Every label in the window indexes the state (the source's arrays have max_label slots). */
  ghost predicate WindowLabelsBelow(w: Window, n: nat)
    requires WellShaped(w)
  {
    forall o :: InWindow(w, o) ==> LabelAt(w, o) < n
  }

  /** Python's `^` on non-negative integers: bitwise exclusive or. */
  function Xor(a: nat, b: nat): nat
    decreases a + b
  {
    if a == 0 then b
    else if b == 0 then a
    else 2 * Xor(a / 2, b / 2) + (if a % 2 == b % 2 then 0 else 1)
  }

  /**
   * Line 89 as Python evaluates it: `A ^ 2 + B ^ 2 + C ^ 2` parses as
   * `A ^ (2 + B) ^ (2 + C) ^ 2`.
   */
  function DistanceAsWritten(res: Resolution, o: Offset): nat
  {
    Xor(Xor(Xor(res.z * o.z, 2 + res.y * o.y), 2 + res.x * o.x), 2)
  }

  /** Line 142, the initial "max_distance", is the same expression over the grid shape. */
  function SentinelAsWritten(res: Resolution, gridSize: Offset): nat
  {
    DistanceAsWritten(res, gridSize)
  }

  /**
   * With unit resolution voxel (2, 0, 0) scores below the corner voxel
   * itself, so the scan prefers it although it is farther away.
   */
  lemma XorDistanceMisorders()
    ensures var res := Resolution(1, 1, 1);
      && DistanceAsWritten(res, Offset(2, 0, 0)) == 0
      && DistanceAsWritten(res, Offset(0, 0, 0)) == 2
  {
    assert Xor(2, 2) == 0 && Xor(0, 2) == 2;
  }

  /**
   * With unit resolution on a 2 x 2 x 2 grid the initial distance is 0, so
   * no voxel is ever strictly closer and no candidate is ever produced.
   */
  lemma XorSentinelZero()
    ensures var res := Resolution(1, 1, 1);
      && SentinelAsWritten(res, Offset(2, 2, 2)) == 0
      && forall o: Offset :: !(DistanceAsWritten(res, o) < SentinelAsWritten(res, Offset(2, 2, 2)))
  {
    assert Xor(2, 4) == 6 && Xor(6, 4) == 2 && Xor(2, 2) == 0;
  }

  function Square(n: nat): nat
  {
    n * n
  }

  /**
   * Line 89 with squares in place of XOR: the squared world distance of
   * voxel o from the window's corner (offset 0, 0, 0).
   */
  function SquaredDistance(res: Resolution, o: Offset): nat
  {
    Square(res.z * o.z) + Square(res.y * o.y) + Square(res.x * o.x)
  }

  /** The initial distance as evidently intended at line 142: the squared world extent of the grid. */
  function Sentinel(res: Resolution, gridSize: Offset): nat
  {
    SquaredDistance(res, gridSize)
  }

  lemma ScaledSquareMonotone(r: nat, a: nat, b: nat)
    requires a <= b
    ensures Square(r * a) <= Square(r * b)
    ensures r > 0 && a < b ==> Square(r * a) < Square(r * b)
  {
    assert r * a <= r * b by {
      assert r * b - r * a == r * (b - a);
    }
    var u, v := r * a, r * b;
    assert v * v - u * u == (v - u) * (v + u);
    if r > 0 && a < b {
      assert r * b - r * a == r * (b - a) >= 1;
    }
  }

  /** A voxel at least as far along every axis is at least as far away. */
  lemma SquaredDistanceMonotone(res: Resolution, o: Offset, o': Offset)
    requires o.z <= o'.z && o.y <= o'.y && o.x <= o'.x
    ensures SquaredDistance(res, o) <= SquaredDistance(res, o')
  {
    ScaledSquareMonotone(res.z, o.z, o'.z);
    ScaledSquareMonotone(res.y, o.y, o'.y);
    ScaledSquareMonotone(res.x, o.x, o'.x);
  }

  /** The distance between two grid indices along one axis. */
  function Gap(a: nat, b: nat): nat
  {
    if a < b then b - a else a - b
  }

  /**
   * The squared world distance of voxel o from the window's centre
   * (zres / 2, yres / 2, xres / 2), the offset that `Midpoint` maps to the
   * endpoint when the window is not clipped at the volume's border: the
   * distance "from center" the comment on line 88 describes.
   */
  function CentredDistance(res: Resolution, w: Window, o: Offset): nat
  {
    Square(res.z * Gap(o.z, w.zres / 2)) + Square(res.y * Gap(o.y, w.yres / 2)) + Square(res.x * Gap(o.x, w.xres / 2))
  }

  lemma GapSquare(r: nat, a: nat, b: nat)
    ensures Square(r * Gap(a, b)) == (r * (a - b)) * (r * (a - b))
  {
    if a < b {
      assert r * (a - b) == -(r * (b - a));
    }
  }

  /**
   * The centred distance of a voxel is the squared world distance between
   * the candidate midpoint it would record and the endpoint's centroid.
   */
  lemma CentredFromEndpoint(res: Resolution, w: Window, centroid: Point, o: Offset)
    ensures var m := Midpoint(w, centroid, o);
      var dz, dy, dx := res.z * (m.z - centroid.z), res.y * (m.y - centroid.y), res.x * (m.x - centroid.x);
      CentredDistance(res, w, o) == dz * dz + dy * dy + dx * dx
  {
    GapSquare(res.z, o.z, w.zres / 2);
    GapSquare(res.y, o.y, w.yres / 2);
    GapSquare(res.x, o.x, w.xres / 2);
  }

  /**
   * The endpoint's own voxel scores 0, and a voxel at least as far from the
   * endpoint along every axis is at least as far away.
   */
  lemma CentredDistanceMonotone(res: Resolution, w: Window, o: Offset, o': Offset)
    requires Gap(o.z, w.zres / 2) <= Gap(o'.z, w.zres / 2)
    requires Gap(o.y, w.yres / 2) <= Gap(o'.y, w.yres / 2)
    requires Gap(o.x, w.xres / 2) <= Gap(o'.x, w.xres / 2)
    ensures CentredDistance(res, w, Offset(w.zres / 2, w.yres / 2, w.xres / 2)) == 0
    ensures CentredDistance(res, w, o) <= CentredDistance(res, w, o')
  {
    ScaledSquareMonotone(res.z, Gap(o.z, w.zres / 2), Gap(o'.z, w.zres / 2));
    ScaledSquareMonotone(res.y, Gap(o.y, w.yres / 2), Gap(o'.y, w.yres / 2));
    ScaledSquareMonotone(res.x, Gap(o.x, w.xres / 2), Gap(o'.x, w.xres / 2));
  }

  /**
   * Measured from the corner, as line 89 does both as written and with
   * squares in place of XOR, the corner of a 1 x 1 x 4 window beats the
   * voxel at the endpoint itself; measured from the centre, the endpoint's
   * voxel wins.
   */
  lemma CornerMisorders(w: Window, endpoint: Point)
    requires w.zres == 1 && w.yres == 1 && w.xres == 4
    ensures var res := Resolution(1, 1, 1);
      && Midpoint(w, endpoint, Offset(0, 0, 2)) == endpoint
      && DistanceAsWritten(res, Offset(0, 0, 0)) == 2 && DistanceAsWritten(res, Offset(0, 0, 2)) == 4
      && SquaredDistance(res, Offset(0, 0, 0)) < SquaredDistance(res, Offset(0, 0, 2))
      && CentredDistance(res, w, Offset(0, 0, 2)) < CentredDistance(res, w, Offset(0, 0, 0))
  {
    assert Xor(0, 2) == 2 && Xor(2, 2) == 0 && Xor(2, 4) == 6 && Xor(6, 2) == 4;
    assert Square(0) == 0 && Square(1 * 2) == 4 && Square(1 * 0) == 0;
    assert Gap(2, 2) == 0 && Gap(0, 2) == 2 && Gap(0, 0) == 0;
  }

  lemma GapBelow(o: nat, size: nat, g: nat)
    requires o < size <= g
    ensures Gap(o, size / 2) < g
  {
  }

  /**
   * Every voxel of a window no larger than the grid is strictly closer to
   * the endpoint than the initial distance, so none is lost to it.
   */
  lemma BelowSentinel(res: Resolution, gridSize: Offset, w: Window, o: Offset)
    requires res.z > 0 && res.y > 0 && res.x > 0
    requires InWindow(w, o) && w.zres <= gridSize.z && w.yres <= gridSize.y && w.xres <= gridSize.x
    ensures CentredDistance(res, w, o) < Sentinel(res, gridSize)
  {
    GapBelow(o.z, w.zres, gridSize.z);
    GapBelow(o.y, w.yres, gridSize.y);
    GapBelow(o.x, w.xres, gridSize.x);
    ScaledSquareMonotone(res.z, Gap(o.z, w.zres / 2), gridSize.z);
    ScaledSquareMonotone(res.y, Gap(o.y, w.yres / 2), gridSize.y);
    ScaledSquareMonotone(res.x, Gap(o.x, w.xres / 2), gridSize.x);
  }

  /** z-y-x lexicographic order, the order of the nested loops. */
  predicate ScanBefore(a: Offset, b: Offset)
  {
    || a.z < b.z
    || (a.z == b.z && a.y < b.y)
    || (a.z == b.z && a.y == b.y && a.x < b.x)
  }

  function Row(z: nat, y: nat, xres: nat): (s: seq<Offset>)
    ensures |s| == xres
    ensures forall o :: o in s <==> o.z == z && o.y == y && o.x < xres
    ensures forall i, j :: 0 <= i < j < |s| ==> ScanBefore(s[i], s[j])
  {
    var s := seq(xres, x requires 0 <= x => Offset(z, y, x));
    assert forall o: Offset :: o.z == z && o.y == y && o.x < xres ==> s[o.x] == o;
    s
  }

  function Plane(z: nat, yres: nat, xres: nat): (s: seq<Offset>)
    ensures forall o :: o in s <==> o.z == z && o.y < yres && o.x < xres
    ensures forall i, j :: 0 <= i < j < |s| ==> ScanBefore(s[i], s[j])
  {
    if yres == 0 then []
    else
      var front, back := Plane(z, yres - 1, xres), Row(z, yres - 1, xres);
      assert forall i, j :: 0 <= i < |front| && 0 <= j < |back| ==> ScanBefore(front[i], back[j]) by {
        forall i, j | 0 <= i < |front| && 0 <= j < |back|
          ensures ScanBefore(front[i], back[j])
        {
          assert front[i] in front && back[j] in back;
        }
      }
      front + back
  }

  /**
   * The offsets of a zres x yres x xres window in the order the triple loop
   * visits them: exactly the in-window offsets, strictly increasing in z-y-x order.
   */
  function ScanOrder(zres: nat, yres: nat, xres: nat): (s: seq<Offset>)
    ensures forall o :: o in s <==> o.z < zres && o.y < yres && o.x < xres
    ensures forall i, j :: 0 <= i < j < |s| ==> ScanBefore(s[i], s[j])
  {
    if zres == 0 then []
    else
      var front, back := ScanOrder(zres - 1, yres, xres), Plane(zres - 1, yres, xres);
      assert forall i, j :: 0 <= i < |front| && 0 <= j < |back| ==> ScanBefore(front[i], back[j]) by {
        forall i, j | 0 <= i < |front| && 0 <= j < |back|
          ensures ScanBefore(front[i], back[j])
        {
          assert front[i] in front && back[j] in back;
        }
      }
      front + back
  }

  function Scan(w: Window): seq<Offset>
  {
    ScanOrder(w.zres, w.yres, w.xres)
  }

  /**
   * The candidate midpoint for a voxel: the window-local offset translated
   * to grid coordinates (`i - res / 2 + centroid`, integer division).
   */
  function Midpoint(w: Window, centroid: Point, o: Offset): Point
  {
    Point(o.z - w.zres / 2 + centroid.z, o.y - w.yres / 2 + centroid.y, o.x - w.xres / 2 + centroid.x)
  }

  /** The network-radius box around p lies inside the grid on all three axes. */
  predicate Enclosed(geo: Geometry, p: Point)
  {
    var r, g := geo.networkRadii, geo.gridSize;
    && p.z - r.z >= 0 && p.z + r.z <= g.z
    && p.y - r.y >= 0 && p.y + r.y <= g.y
    && p.x - r.x >= 0 && p.x + r.x <= g.x
  }

  /** Voxel o of the window is a usable neighbour of label l for reference label `label`. */
  predicate Qualifies(geo: Geometry, w: Window, centroid: Point, refLabel: nat, o: Offset, l: nat)
    requires WellShaped(w)
  {
    && InWindow(w, o)
    && LabelAt(w, o) == l
    && l != refLabel
    && Enclosed(geo, Midpoint(w, centroid, o))
  }

  /**
   * `near.point[l]` was set by the k-th voxel of the scan, the first one
   * reaching the recorded distance.
   */
  ghost predicate WonBy(geo: Geometry, w: Window, centroid: Point, refLabel: nat, dist: Offset -> nat,
                        near: Nearest, l: nat, k: nat)
    requires WellShaped(w) && l < |near.distance| && l < |near.point|
  {
    var S := Scan(w);
    && k < |S|
    && Qualifies(geo, w, centroid, refLabel, S[k], l)
    && dist(S[k]) == near.distance[l]
    && near.point[l] == Midpoint(w, centroid, S[k])
    && forall j :: 0 <= j < k && Qualifies(geo, w, centroid, refLabel, S[j], l) ==> dist(S[j]) > near.distance[l]
  }

  /**
   * The scan over one endpoint's window. For every label other than the
   * reference label the recorded distance becomes the minimum of what it was
   * and the distances of the qualifying voxels; the recorded midpoint changes
   * only when the distance strictly drops, and then it is the midpoint of
   * the first voxel in scan order that reaches the new minimum.
   */
  method ExtractNeighbors(w: Window, refLabel: nat, near: Nearest, geo: Geometry,
                          dist: Offset -> nat, centroid: Point)
    returns (near': Nearest)
    requires WellShaped(w) && |near.distance| == |near.point|
    requires WindowLabelsBelow(w, |near.distance|)
    ensures |near'.distance| == |near.distance| && |near'.point| == |near.point|
    ensures forall l :: 0 <= l < |near.distance| ==> near'.distance[l] <= near.distance[l]
    ensures forall l, k ::
      (0 <= l < |near.distance| && 0 <= k < |Scan(w)| && Qualifies(geo, w, centroid, refLabel, Scan(w)[k], l)) ==>
      near'.distance[l] <= dist(Scan(w)[k])
    ensures forall l :: 0 <= l < |near.distance| && near'.distance[l] < near.distance[l] ==>
      exists k: nat :: WonBy(geo, w, centroid, refLabel, dist, near', l, k)
    ensures forall l :: 0 <= l < |near.distance| && near'.distance[l] == near.distance[l] ==>
      near'.point[l] == near.point[l]
    ensures forall l :: 0 <= l < |near.distance| && near'.distance[l] < near.distance[l] ==>
      Enclosed(geo, near'.point[l])
    ensures refLabel < |near.distance| ==>
      near'.distance[refLabel] == near.distance[refLabel] && near'.point[refLabel] == near.point[refLabel]
  {
    var S := Scan(w);
    near' := near;
    for k := 0 to |S|
      invariant ScanInv(geo, w, centroid, refLabel, dist, near, near', k)
    {
      assert S[k] in S;
      ghost var before := near';
      near' := Consider(geo, w, centroid, refLabel, dist, near', S[k]);
      ScanStep(geo, w, centroid, refLabel, dist, near, before, k);
    }
  }

  /**
   * One iteration of the innermost loop: voxel o improves its label's entry
   * when the label is not the reference label, the distance is strictly
   * smaller than the recorded one and the box around the midpoint fits.
   */
  function Consider(geo: Geometry, w: Window, centroid: Point, refLabel: nat, dist: Offset -> nat,
                    near: Nearest, o: Offset): (r: Nearest)
    requires WellShaped(w) && InWindow(w, o) && LabelAt(w, o) < |near.distance| == |near.point|
    ensures |r.distance| == |near.distance| && |r.point| == |near.point|
    ensures var l := LabelAt(w, o);
      if Qualifies(geo, w, centroid, refLabel, o, l) && dist(o) < near.distance[l]
      then r.distance[l] == dist(o) && r.point[l] == Midpoint(w, centroid, o)
        && forall m :: 0 <= m < |near.distance| && m != l ==> r.distance[m] == near.distance[m] && r.point[m] == near.point[m]
      else r == near
  {
    var l := LabelAt(w, o);
    if l == refLabel then near
    else if dist(o) >= near.distance[l] then near
    else
      var mid := Midpoint(w, centroid, o);
      if !Enclosed(geo, mid) then near
      else Nearest(near.distance[l := dist(o)], near.point[l := mid])
  }

  /** The state of the scan after its first k voxels, against the state it started from. */
  ghost predicate ScanInv(geo: Geometry, w: Window, centroid: Point, refLabel: nat, dist: Offset -> nat,
                          near: Nearest, near': Nearest, k: nat)
  {
    var N := |near.distance|;
    && WellShaped(w) && WindowLabelsBelow(w, N) && k <= |Scan(w)|
    && |near.point| == N && |near'.distance| == N && |near'.point| == N
    && (forall l :: 0 <= l < N ==> near'.distance[l] <= near.distance[l])
    && ScanBounded(geo, w, centroid, refLabel, dist, near', k)
    && ScanWon(geo, w, centroid, refLabel, dist, near, near', k)
    && (forall l :: 0 <= l < N && near'.distance[l] == near.distance[l] ==> near'.point[l] == near.point[l])
    && (refLabel < N ==> near'.distance[refLabel] == near.distance[refLabel])
  }

  /** No qualifying voxel among the first k is closer than the recorded distance of its label. */
  ghost predicate ScanBounded(geo: Geometry, w: Window, centroid: Point, refLabel: nat, dist: Offset -> nat,
                              near': Nearest, k: nat)
    requires WellShaped(w) && k <= |Scan(w)|
  {
    forall l, j :: 0 <= l < |near'.distance| && 0 <= j < k && Qualifies(geo, w, centroid, refLabel, Scan(w)[j], l) ==>
      near'.distance[l] <= dist(Scan(w)[j])
  }

  /** Every lowered entry was set by one of the first k voxels. */
  ghost predicate ScanWon(geo: Geometry, w: Window, centroid: Point, refLabel: nat, dist: Offset -> nat,
                          near: Nearest, near': Nearest, k: nat)
    requires WellShaped(w) && |near'.distance| == |near'.point| == |near.distance|
  {
    forall l :: 0 <= l < |near.distance| && near'.distance[l] < near.distance[l] ==>
      exists j: nat :: j < k && WonBy(geo, w, centroid, refLabel, dist, near', l, j)
  }

  lemma ScanStep(geo: Geometry, w: Window, centroid: Point, refLabel: nat, dist: Offset -> nat,
                 near: Nearest, before: Nearest, k: nat)
    requires ScanInv(geo, w, centroid, refLabel, dist, near, before, k) && k < |Scan(w)|
    ensures InWindow(w, Scan(w)[k])
    ensures ScanInv(geo, w, centroid, refLabel, dist, near, Consider(geo, w, centroid, refLabel, dist, before, Scan(w)[k]), k + 1)
  {
    var o := Scan(w)[k];
    assert o in Scan(w);
    BoundedStep(geo, w, centroid, refLabel, dist, before, k);
    WonStep(geo, w, centroid, refLabel, dist, near, before, k);
  }

  lemma BoundedStep(geo: Geometry, w: Window, centroid: Point, refLabel: nat, dist: Offset -> nat,
                    before: Nearest, k: nat)
    requires WellShaped(w) && k < |Scan(w)| && WindowLabelsBelow(w, |before.distance|)
    requires |before.distance| == |before.point|
    requires ScanBounded(geo, w, centroid, refLabel, dist, before, k)
    ensures InWindow(w, Scan(w)[k])
    ensures ScanBounded(geo, w, centroid, refLabel, dist, Consider(geo, w, centroid, refLabel, dist, before, Scan(w)[k]), k + 1)
  {
    var S := Scan(w);
    assert S[k] in S;
    var after := Consider(geo, w, centroid, refLabel, dist, before, S[k]);
    forall m, j | 0 <= m < |after.distance| && 0 <= j < k + 1 && Qualifies(geo, w, centroid, refLabel, S[j], m)
      ensures after.distance[m] <= dist(S[j])
    {
      if j < k {
        assert before.distance[m] <= dist(S[j]);
      }
    }
  }

  lemma WonStep(geo: Geometry, w: Window, centroid: Point, refLabel: nat, dist: Offset -> nat,
                near: Nearest, before: Nearest, k: nat)
    requires WellShaped(w) && k < |Scan(w)| && WindowLabelsBelow(w, |near.distance|)
    requires |before.distance| == |before.point| == |near.distance|
    requires ScanBounded(geo, w, centroid, refLabel, dist, before, k)
    requires ScanWon(geo, w, centroid, refLabel, dist, near, before, k)
    ensures InWindow(w, Scan(w)[k])
    ensures ScanWon(geo, w, centroid, refLabel, dist, near, Consider(geo, w, centroid, refLabel, dist, before, Scan(w)[k]), k + 1)
  {
    var S := Scan(w);
    assert S[k] in S;
    var l := LabelAt(w, S[k]);
    var after := Consider(geo, w, centroid, refLabel, dist, before, S[k]);
    if after != before {
      forall j | 0 <= j < k && Qualifies(geo, w, centroid, refLabel, S[j], l)
        ensures dist(S[j]) > after.distance[l]
      {
        assert before.distance[l] <= dist(S[j]);
      }
      assert WonBy(geo, w, centroid, refLabel, dist, after, l, k);
      forall m | 0 <= m < |near.distance| && m != l && after.distance[m] < near.distance[m]
        ensures exists j: nat :: j < k + 1 && WonBy(geo, w, centroid, refLabel, dist, after, m, j)
      {
        var j: nat :| j < k && WonBy(geo, w, centroid, refLabel, dist, before, m, j);
        assert WonBy(geo, w, centroid, refLabel, dist, after, m, j);
      }
    } else {
      forall m | 0 <= m < |near.distance| && after.distance[m] < near.distance[m]
        ensures exists j: nat :: j < k + 1 && WonBy(geo, w, centroid, refLabel, dist, after, m, j)
      {
        var j: nat :| j < k && WonBy(geo, w, centroid, refLabel, dist, before, m, j);
      }
    }
  }
}
