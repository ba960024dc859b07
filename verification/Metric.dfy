// Metric functional dependencies over one right-hand side: brute force and the approximation by half the parameter.
module MetricVerifiers {
  import opened Relations
  import opened Partitions
  import opened PositionListIndexes
  import opened Options
  import Levenshteins

  datatype MetricAlgo = Brute | Approx

  datatype Value<T> = Null | Empty | Present(point: T)

  ghost predicate IsMetric<T(!new)>(dist: (T, T) -> real) {
    && (forall a, b :: dist(a, b) == dist(b, a))
    && forall a, b, c :: dist(a, c) <= dist(a, b) + dist(b, c)
  }

  ghost predicate AllClose<T>(points: seq<T>, dist: (T, T) -> real, d: real) {
    forall i, j :: 0 <= i < j < |points| ==> dist(points[i], points[j]) <= d
  }

  // ----- one cluster -----

  method BruteVerifyCluster<T>(points: seq<T>, dist: (T, T) -> real, parameter: real) returns (holds: bool)
    ensures holds <==> AllClose(points, dist, parameter)
  {
    var i := 0;
    while i + 1 < |points|
      invariant 0 <= i
      invariant forall p, q :: 0 <= p < i && p < q < |points| ==> dist(points[p], points[q]) <= parameter
    {
      var j := i + 1;
      while j < |points|
        invariant i + 1 <= j <= |points|
        invariant forall q :: i < q < j ==> dist(points[i], points[q]) <= parameter
      {
        if dist(points[i], points[j]) > parameter {
          return false;
        }
        j := j + 1;
      }
      i := i + 1;
    }
    return true;
  }

  predicate ApproxVerifyCluster<T>(points: seq<T>, dist: (T, T) -> real, parameter: real) {
    |points| < 2 || forall i :: 1 <= i < |points| ==> dist(points[0], points[i]) * 2.0 <= parameter
  }

  lemma ApproxBetween<T(!new)>(points: seq<T>, dist: (T, T) -> real, parameter: real)
    ensures AllClose(points, dist, parameter / 2.0) ==> ApproxVerifyCluster(points, dist, parameter)
    ensures ApproxVerifyCluster(points, dist, parameter) && IsMetric(dist) ==> AllClose(points, dist, parameter)
  {
    if ApproxVerifyCluster(points, dist, parameter) && IsMetric(dist) {
      forall i, j | 0 <= i < j < |points| ensures dist(points[i], points[j]) <= parameter {
        assert dist(points[i], points[j]) <= dist(points[i], points[0]) + dist(points[0], points[j]);
      }
    }
  }

  function RealDist(a: real, b: real): real {
    if a < b then b - a else a - b
  }

  function NumericDist<T>(value: T -> real): (T, T) -> real {
    (a, b) => RealDist(value(a), value(b))
  }

  // Running maximum and minimum of one numeric column.
  method CompareNumericValues<T>(points: seq<T>, value: T -> real, parameter: real) returns (holds: bool)
    ensures holds <==> AllClose(points, NumericDist(value), parameter)
    ensures holds <==> forall i, j :: 0 <= i < j < |points| ==> -parameter <= value(points[i]) - value(points[j]) <= parameter
  {
    DifferencesDecide(points, value, parameter);
    if |points| < 2 {
      return true;
    }
    var maxValue, minValue := points[0], points[0];
    ghost var maxAt, minAt := 0, 0;
    var i := 1;
    while i < |points|
      invariant 1 <= i <= |points| && 0 <= maxAt < i && 0 <= minAt < i
      invariant points[maxAt] == maxValue && points[minAt] == minValue
      invariant forall j :: 0 <= j < i ==> value(minValue) <= value(points[j]) <= value(maxValue)
      invariant i > 1 ==> value(maxValue) - value(minValue) <= parameter
    {
      if value(points[i]) > value(maxValue) {
        maxValue, maxAt := points[i], i;
      } else if value(points[i]) < value(minValue) {
        minValue, minAt := points[i], i;
      }
      if RealDist(value(maxValue), value(minValue)) > parameter {
        WidestPair(points, value, i, maxAt, minAt);
        return false;
      }
      i := i + 1;
    }
    return true;
  }

  lemma DifferencesDecide<T>(points: seq<T>, value: T -> real, parameter: real)
    ensures AllClose(points, NumericDist(value), parameter) <==>
      forall i, j :: 0 <= i < j < |points| ==> -parameter <= value(points[i]) - value(points[j]) <= parameter
  {
    if AllClose(points, NumericDist(value), parameter) {
      forall i, j | 0 <= i < j < |points| ensures -parameter <= value(points[i]) - value(points[j]) <= parameter {
        assert NumericDist(value)(points[i], points[j]) <= parameter;
      }
    }
  }

  lemma WidestPair<T>(points: seq<T>, value: T -> real, i: nat, maxAt: nat, minAt: nat)
    requires 1 <= i < |points| && maxAt <= i && minAt <= i
    ensures exists p, q ::
      && 0 <= p < q < |points|
      && NumericDist(value)(points[p], points[q]) >= RealDist(value(points[maxAt]), value(points[minAt]))
  {
    var p, q := if maxAt < minAt then maxAt else minAt, if maxAt < minAt then minAt else maxAt;
    if p == q {
      p, q := 0, i;
    }
    assert NumericDist(value)(points[p], points[q]) >= RealDist(value(points[maxAt]), value(points[minAt]));
  }

  // ----- from points to rows -----

  ghost predicate InRange(cluster: Cluster, n: nat) {
    forall p :: 0 <= p < |cluster| ==> cluster[p] < n
  }

  // The present values of a cluster, in order.
  ghost function PointsOf<T>(cluster: Cluster, values: seq<Value<T>>): seq<T>
    requires InRange(cluster, |values|)
  {
    if cluster == [] then [] else
      var rest, last := cluster[..|cluster| - 1], values[cluster[|cluster| - 1]];
      PointsOf(rest, values) + if last.Present? then [last.point] else []
  }

  ghost predicate HasNull<T>(cluster: Cluster, values: seq<Value<T>>)
    requires InRange(cluster, |values|)
  {
    exists i :: i in cluster && values[i].Null?
  }

  ghost predicate ValuesClose<T>(a: Value<T>, b: Value<T>, dist: (T, T) -> real, d: real) {
    a.Present? && b.Present? ==> dist(a.point, b.point) <= d
  }

  // A present value is the point at the place that the values before it leave.
  lemma {:induction false} PointAt<T>(cluster: Cluster, values: seq<Value<T>>, p: nat)
    requires InRange(cluster, |values|) && p < |cluster| && values[cluster[p]].Present?
    ensures var k := |PointsOf(cluster[..p], values)|;
      k < |PointsOf(cluster, values)| && values[cluster[p]] == Present(PointsOf(cluster, values)[k])
  {
    var rest := cluster[..|cluster| - 1];
    if p < |rest| {
      PointAt(rest, values, p);
      assert rest[..p] == cluster[..p];
    }
  }

  lemma {:induction false} PlaceOfPoint<T>(cluster: Cluster, values: seq<Value<T>>, k: nat) returns (p: nat)
    requires InRange(cluster, |values|) && k < |PointsOf(cluster, values)|
    ensures p < |cluster| && |PointsOf(cluster[..p], values)| == k && values[cluster[p]] == Present(PointsOf(cluster, values)[k])
  {
    var rest := cluster[..|cluster| - 1];
    if k < |PointsOf(rest, values)| {
      p := PlaceOfPoint(rest, values, k);
      assert rest[..p] == cluster[..p];
    } else {
      p := |rest|;
    }
  }

  lemma {:induction false} NoPoints<T>(cluster: Cluster, values: seq<Value<T>>)
    requires InRange(cluster, |values|)
    ensures PointsOf(cluster, values) == [] <==> forall p :: 0 <= p < |cluster| ==> !values[cluster[p]].Present?
  {
    if cluster != [] {
      NoPoints(cluster[..|cluster| - 1], values);
    }
  }

  // The first present value of a cluster.
  ghost predicate IsFirstPoint<T>(cluster: Cluster, values: seq<Value<T>>, p: nat)
    requires InRange(cluster, |values|) && p < |cluster|
  {
    values[cluster[p]].Present? && forall q :: 0 <= q < p ==> !values[cluster[q]].Present?
  }

  // The approximation compares the first present value of a cluster with all later ones.
  lemma ApproxComparesFirst<T>(cluster: Cluster, values: seq<Value<T>>, dist: (T, T) -> real, parameter: real)
    requires InRange(cluster, |values|)
    ensures ApproxVerifyCluster(PointsOf(cluster, values), dist, parameter) <==>
      forall p, q :: 0 <= p < q < |cluster| && IsFirstPoint(cluster, values, p) && values[cluster[q]].Present? ==>
        dist(values[cluster[p]].point, values[cluster[q]].point) <= parameter / 2.0
  {
    hide PointsOf;
    var points := PointsOf(cluster, values);
    if ApproxVerifyCluster(points, dist, parameter) {
      forall p, q | 0 <= p < q < |cluster| && IsFirstPoint(cluster, values, p) && values[cluster[q]].Present?
        ensures dist(values[cluster[p]].point, values[cluster[q]].point) <= parameter / 2.0
      {
        PointAt(cluster, values, p);
        PointAt(cluster, values, q);
        NoPoints(cluster[..p], values);
        NoPoints(cluster[..q], values);
        assert cluster[..q][p] == cluster[p];
        assert |PointsOf(cluster[..p], values)| == 0;
      }
    }
    if forall p, q :: 0 <= p < q < |cluster| && IsFirstPoint(cluster, values, p) && values[cluster[q]].Present? ==>
        dist(values[cluster[p]].point, values[cluster[q]].point) <= parameter / 2.0 {
      forall k: nat | 1 <= k < |points| ensures dist(points[0], points[k]) * 2.0 <= parameter {
        var p := PlaceOfPoint(cluster, values, 0);
        var q := PlaceOfPoint(cluster, values, k);
        NoPoints(cluster[..p], values);
        NoPoints(cluster[..q], values);
        assert forall o :: 0 <= o < p ==> cluster[..p][o] == cluster[o];
        assert IsFirstPoint(cluster, values, p);
        assert exists o :: 0 <= o < q && values[cluster[..q][o]].Present?;
        assert p < q;
      }
    }
  }

  ghost predicate RowsAreClose<T>(cluster: Cluster, values: seq<Value<T>>, dist: (T, T) -> real, d: real)
    requires InRange(cluster, |values|)
  {
    forall p, q :: 0 <= p < q < |cluster| ==> ValuesClose(values[cluster[p]], values[cluster[q]], dist, d)
  }

  lemma PointsSplit<T>(cluster: Cluster, values: seq<Value<T>>)
    requires InRange(cluster, |values|) && cluster != []
    ensures InRange(cluster[..|cluster| - 1], |values|)
    ensures var last := values[cluster[|cluster| - 1]];
      PointsOf(cluster, values) == PointsOf(cluster[..|cluster| - 1], values) + if last.Present? then [last.point] else []
  {
  }

  // One more point is close to all others exactly when the new list is close.
  lemma OneMorePoint<T>(before: seq<T>, point: T, dist: (T, T) -> real, d: real)
    ensures AllClose(before + [point], dist, d) <==>
      AllClose(before, dist, d) && forall k :: 0 <= k < |before| ==> dist(before[k], point) <= d
  {
    var points := before + [point];
    if AllClose(points, dist, d) {
      forall i, j | 0 <= i < j < |before| ensures dist(before[i], before[j]) <= d {
        assert dist(points[i], points[j]) <= d;
      }
      forall k | 0 <= k < |before| ensures dist(before[k], point) <= d {
        assert dist(points[k], points[|before|]) <= d;
      }
    }
  }

  // The points of a cluster are close to a point exactly when its rows are.
  lemma PointsCloseTo<T>(cluster: Cluster, values: seq<Value<T>>, point: T, dist: (T, T) -> real, d: real)
    requires InRange(cluster, |values|)
    ensures (forall k :: 0 <= k < |PointsOf(cluster, values)| ==> dist(PointsOf(cluster, values)[k], point) <= d)
      <==> forall p :: 0 <= p < |cluster| ==> ValuesClose(values[cluster[p]], Present(point), dist, d)
  {
    hide PointsOf;
    var points := PointsOf(cluster, values);
    if forall k :: 0 <= k < |points| ==> dist(points[k], point) <= d {
      forall p | 0 <= p < |cluster| ensures ValuesClose(values[cluster[p]], Present(point), dist, d) {
        if values[cluster[p]].Present? {
          PointAt(cluster, values, p);
        }
      }
    }
    if forall p :: 0 <= p < |cluster| ==> ValuesClose(values[cluster[p]], Present(point), dist, d) {
      forall k | 0 <= k < |points| ensures dist(points[k], point) <= d {
        var p := PlaceOfPoint(cluster, values, k);
        assert ValuesClose(values[cluster[p]], Present(point), dist, d);
      }
    }
  }

  // One more row is close to all others exactly when the new cluster is close.
  lemma OneMoreRow<T>(cluster: Cluster, values: seq<Value<T>>, dist: (T, T) -> real, d: real)
    requires InRange(cluster, |values|) && cluster != []
    ensures var rest, last := cluster[..|cluster| - 1], values[cluster[|cluster| - 1]];
      RowsAreClose(cluster, values, dist, d) <==>
        RowsAreClose(rest, values, dist, d) && forall p :: 0 <= p < |rest| ==> ValuesClose(values[rest[p]], last, dist, d)
  {
    hide ValuesClose;
    var n := |cluster| - 1;
    var rest := cluster[..n];
    assert forall p :: 0 <= p < n ==> rest[p] == cluster[p];
    if RowsAreClose(cluster, values, dist, d) {
      forall p, q | 0 <= p < q < n ensures ValuesClose(values[rest[p]], values[rest[q]], dist, d) {
        assert ValuesClose(values[cluster[p]], values[cluster[q]], dist, d);
      }
      forall p | 0 <= p < n ensures ValuesClose(values[rest[p]], values[cluster[n]], dist, d) {
        assert ValuesClose(values[cluster[p]], values[cluster[n]], dist, d);
      }
    }
    if RowsAreClose(rest, values, dist, d) && forall p :: 0 <= p < n ==> ValuesClose(values[rest[p]], values[cluster[n]], dist, d) {
      forall p, q | 0 <= p < q < |cluster| ensures ValuesClose(values[cluster[p]], values[cluster[q]], dist, d) {
        assert q < n ==> ValuesClose(values[rest[p]], values[rest[q]], dist, d);
        assert q == n ==> ValuesClose(values[rest[p]], values[cluster[n]], dist, d);
      }
    }
  }

  // Comparing the points of a cluster is comparing its rows.
  lemma {:induction false} ClosePointsMeanCloseRows<T>(cluster: Cluster, values: seq<Value<T>>, dist: (T, T) -> real, d: real)
    requires InRange(cluster, |values|)
    ensures AllClose(PointsOf(cluster, values), dist, d) <==> RowsAreClose(cluster, values, dist, d)
  {
    if cluster != [] {
      hide AllClose, PointsOf, RowsAreClose;
      var rest, last := cluster[..|cluster| - 1], values[cluster[|cluster| - 1]];
      PointsSplit(cluster, values);
      OneMoreRow(cluster, values, dist, d);
      ClosePointsMeanCloseRows(rest, values, dist, d);
      if last.Present? {
        OneMorePoint(PointsOf(rest, values), last.point, dist, d);
        PointsCloseTo(rest, values, last.point, dist, d);
      } else {
        assert PointsOf(rest, values) + [] == PointsOf(rest, values);
      }
    } else {
      assert PointsOf(cluster, values) == [];
    }
  }

  lemma SameCloseness<T(!new)>(points: seq<T>, dist: (T, T) -> real, same: (T, T) -> real, d: real)
    requires forall a, b :: dist(a, b) == same(a, b)
    ensures AllClose(points, dist, d) <==> AllClose(points, same, d)
  {
  }

  // ----- the verifier -----

  class MetricVerifier<T(!new)> {
    const relation: Relation
    const lhsIndices: seq<nat>
    const values: seq<Value<T>>  // the right-hand side, row by row
    const dist: (T, T) -> real
    const parameter: real
    const distFromNullIsInfinity: bool
    const algo: MetricAlgo
    const numeric: Option<T -> real>  // the values of a numeric column under the Euclidean metric
    var metricFdHolds: bool

    ghost predicate Valid() {
      && (numeric.Some? ==> forall a, b :: dist(a, b) == NumericDist(numeric.value)(a, b))
      && lhsIndices != [] && (forall c :: c in lhsIndices ==> c in relation.Columns())
      && |values| == |relation.rows|
    }

    constructor (relation: Relation, lhsIndices: seq<nat>, values: seq<Value<T>>, dist: (T, T) -> real, parameter: real,
                 distFromNullIsInfinity: bool, algo: MetricAlgo, numeric: Option<T -> real>)
      requires numeric.Some? ==> forall a, b :: dist(a, b) == NumericDist(numeric.value)(a, b)
      requires lhsIndices != [] && (forall c :: c in lhsIndices ==> c in relation.Columns()) && |values| == |relation.rows|
      ensures Valid() && this.relation == relation && this.lhsIndices == lhsIndices && this.values == values
      ensures this.dist == dist && this.parameter == parameter && this.algo == algo
      ensures this.distFromNullIsInfinity == distFromNullIsInfinity && this.numeric == numeric
    {
      this.relation, this.lhsIndices, this.values, this.dist := relation, lhsIndices, values, dist;
      this.parameter, this.distFromNullIsInfinity, this.algo, this.numeric := parameter, distFromNullIsInfinity, algo, numeric;
      metricFdHolds := false;
    }

    // Only the approximation for strings is not exact: a numeric column is compared by its extremes whatever the algorithm.
    predicate IsExact() {
      algo == Brute || numeric.Some?
    }

    ghost function Lhs(): Vertical {
      set c | c in lhsIndices
    }

    ghost predicate RowsClose(i: nat, j: nat, d: real)
      requires i < |values| && j < |values|
    {
      && (distFromNullIsInfinity ==> !values[i].Null? && !values[j].Null?)
      && ValuesClose(values[i], values[j], dist, d)
    }

    // Rows that agree on the left-hand side are at most d apart on the right-hand side.
    ghost predicate MetricFd(d: real)
      requires Valid()
    {
      forall i: nat, j: nat :: i < j && Together(relation, Lhs(), i, j) ==> RowsClose(i, j, d)
    }

    // The first row of its class with a present value.
    ghost predicate IsFirstPresent(i: nat)
      requires Valid() && i < |values|
    {
      values[i].Present? && forall h: nat :: h < i && Together(relation, Lhs(), h, i) ==> !values[h].Present?
    }

    // What the approximation decides: no class has a null that counts, and in every class each present value is at most half
    // the parameter from that of the first row that has one.
    ghost predicate NearFirst()
      requires Valid()
    {
      forall i: nat, j: nat :: i < j && Together(relation, Lhs(), i, j) ==>
        && (distFromNullIsInfinity ==> !values[i].Null? && !values[j].Null?)
        && (IsFirstPresent(i) && values[j].Present? ==> dist(values[i].point, values[j].point) <= parameter / 2.0)
    }

    ghost predicate ClusterIsNear(cluster: Cluster)
      requires Valid() && InRange(cluster, |relation.rows|)
    {
      !(distFromNullIsInfinity && HasNull(cluster, values)) && ApproxVerifyCluster(PointsOf(cluster, values), dist, parameter)
    }

    ghost predicate RowsAreNear(cluster: Cluster)
      requires Valid() && InRange(cluster, |relation.rows|)
    {
      forall i, j :: i in cluster && j in cluster && i < j ==>
        && (distFromNullIsInfinity ==> !values[i].Null? && !values[j].Null?)
        && (IsFirstPresent(i) && values[j].Present? ==> dist(values[i].point, values[j].point) <= parameter / 2.0)
    }

    lemma FirstPresentMeans(cluster: Cluster, p: nat)
      requires Valid() && IsCluster(cluster, relation, Lhs()) && InRange(cluster, |relation.rows|) && p < |cluster|
      ensures IsFirstPresent(cluster[p]) <==> IsFirstPoint(cluster, values, p)
    {
      var i := cluster[p];
      assert i in cluster;
      if IsFirstPoint(cluster, values, p) {
        forall h: nat | h < i && Together(relation, Lhs(), h, i) ensures !values[h].Present? {
          TogetherTransitive(relation, Lhs(), h, i, h);
          assert h in cluster;
          var q :| 0 <= q < |cluster| && cluster[q] == h;
          assert q < p;
        }
      }
      if IsFirstPresent(i) {
        forall q | 0 <= q < p ensures !values[cluster[q]].Present? {
          assert cluster[q] in cluster && Together(relation, Lhs(), cluster[q], i);
        }
      }
    }

    lemma ClusterIsNearRows(cluster: Cluster)
      requires Valid() && IsCluster(cluster, relation, Lhs()) && InRange(cluster, |relation.rows|)
      ensures ClusterIsNear(cluster) <==> RowsAreNear(cluster)
    {
      hide IsFirstPresent, IsFirstPoint, ApproxVerifyCluster, PointsOf;
      ApproxComparesFirst(cluster, values, dist, parameter);
      forall p | 0 <= p < |cluster| ensures cluster[p] in cluster && (IsFirstPresent(cluster[p]) <==> IsFirstPoint(cluster, values, p)) {
        FirstPresentMeans(cluster, p);
      }
      if ClusterIsNear(cluster) {
        forall i, j | i in cluster && j in cluster && i < j && IsFirstPresent(i) && values[j].Present?
          ensures values[i].Present? && dist(values[i].point, values[j].point) <= parameter / 2.0
        {
          var p, q :| 0 <= p < |cluster| && 0 <= q < |cluster| && cluster[p] == i && cluster[q] == j;
          FirstIsPresent(i);
          assert p < q;
        }
      }
      if RowsAreNear(cluster) {
        NoNullNear(cluster);
        forall p, q | 0 <= p < q < |cluster| && IsFirstPoint(cluster, values, p) && values[cluster[q]].Present?
          ensures values[cluster[p]].Present? && dist(values[cluster[p]].point, values[cluster[q]].point) <= parameter / 2.0
        {
          FirstIsPresent(cluster[p]);
          assert cluster[p] < cluster[q];
        }
      }
    }

    lemma FirstIsPresent(i: nat)
      requires Valid() && i < |values| && IsFirstPresent(i)
      ensures values[i].Present?
    {
    }

    lemma NoNullNear(cluster: Cluster)
      requires Valid() && |cluster| >= 2 && Ascending(cluster) && InRange(cluster, |relation.rows|)
      requires RowsAreNear(cluster)
      ensures !(distFromNullIsInfinity && HasNull(cluster, values))
    {
      forall i | i in cluster ensures distFromNullIsInfinity ==> !values[i].Null? {
        var p :| 0 <= p < |cluster| && cluster[p] == i;
        var q := if p == 0 then 1 else 0;
        assert cluster[q] in cluster;
        assert if p < q then cluster[p] < cluster[q] else cluster[q] < cluster[p];
      }
    }

    // The approximation, too, looks at the clusters of the left-hand side only.
    lemma NearClustersDecide(index: seq<Cluster>)
      requires Valid() && Groups(index, relation, Lhs())
      ensures forall k :: 0 <= k < |index| ==> InRange(index[k], |relation.rows|)
      ensures (forall k :: 0 <= k < |index| ==> ClusterIsNear(index[k])) <==> NearFirst()
    {
      hide ClusterIsNear, IsFirstPresent;
      forall k | 0 <= k < |index|
        ensures InRange(index[k], |relation.rows|) && (ClusterIsNear(index[k]) <==> RowsAreNear(index[k]))
      {
        assert index[k] in index && IsCluster(index[k], relation, Lhs());
        assert forall p :: 0 <= p < |index[k]| ==> index[k][p] in index[k];
        ClusterIsNearRows(index[k]);
      }
      if forall k :: 0 <= k < |index| ==> ClusterIsNear(index[k]) {
        forall i: nat, j: nat | i < j && Together(relation, Lhs(), i, j)
          ensures distFromNullIsInfinity ==> !values[i].Null? && !values[j].Null?
          ensures IsFirstPresent(i) && values[j].Present? ==>
            values[i].Present? && dist(values[i].point, values[j].point) <= parameter / 2.0
        {
          var c :| c in index && i in c;
          assert IsCluster(c, relation, Lhs()) && j in c;
          var k :| 0 <= k < |index| && index[k] == c;
          assert RowsAreNear(index[k]);
          if IsFirstPresent(i) {
            FirstIsPresent(i);
          }
        }
      }
      if NearFirst() {
        forall k | 0 <= k < |index| ensures RowsAreNear(index[k]) {
          assert index[k] in index && IsCluster(index[k], relation, Lhs());
        }
      }
    }

    // Half the parameter for all pairs is enough for the approximation, and for a metric the approximation is enough for
    // the parameter.
    lemma NearFirstBetween(index: seq<Cluster>)
      requires Valid() && Groups(index, relation, Lhs())
      ensures MetricFd(parameter / 2.0) ==> NearFirst()
      ensures NearFirst() && IsMetric(dist) ==> MetricFd(parameter)
    {
      hide IsMetric, MetricFd, NearFirst, HasNull, PointsOf;
      ClustersDecide(index, parameter);
      ClustersDecide(index, parameter / 2.0);
      NearClustersDecide(index);
      forall k | 0 <= k < |index|
        ensures ClusterFits(index[k], parameter / 2.0) ==> ClusterIsNear(index[k])
        ensures ClusterIsNear(index[k]) && IsMetric(dist) ==> ClusterFits(index[k], parameter)
      {
        ApproxBetween(PointsOf(index[k], values), dist, parameter);
      }
    }

    ghost predicate ClusterFits(cluster: Cluster, d: real)
      requires Valid() && InRange(cluster, |relation.rows|)
    {
      !(distFromNullIsInfinity && HasNull(cluster, values)) && AllClose(PointsOf(cluster, values), dist, d)
    }

    ghost predicate RowsFit(cluster: Cluster, d: real)
      requires Valid() && InRange(cluster, |relation.rows|)
    {
      forall i, j :: i in cluster && j in cluster && i < j ==> RowsClose(i, j, d)
    }

    lemma ClusterFitsRows(cluster: Cluster, d: real)
      requires Valid() && IsCluster(cluster, relation, Lhs())
      ensures InRange(cluster, |relation.rows|)
      ensures ClusterFits(cluster, d) <==> RowsFit(cluster, d)
    {
      assert forall i :: i in cluster ==> relation.IsRow(i);
      assert forall p :: 0 <= p < |cluster| ==> cluster[p] in cluster;
      ClosePointsMeanCloseRows(cluster, values, dist, d);
      if ClusterFits(cluster, d) {
        forall i, j | i in cluster && j in cluster && i < j ensures RowsClose(i, j, d) {
          var p, q :| 0 <= p < |cluster| && 0 <= q < |cluster| && cluster[p] == i && cluster[q] == j;
        }
      }
      if RowsFit(cluster, d) {
        NoNullFits(cluster, d);
        forall p, q | 0 <= p < q < |cluster| ensures ValuesClose(values[cluster[p]], values[cluster[q]], dist, d) {
          assert cluster[p] in cluster && cluster[q] in cluster && cluster[p] < cluster[q];
          assert RowsClose(cluster[p], cluster[q], d);
        }
      }
    }

    lemma NoNullFits(cluster: Cluster, d: real)
      requires Valid() && |cluster| >= 2 && Ascending(cluster) && InRange(cluster, |relation.rows|)
      requires RowsFit(cluster, d)
      ensures !(distFromNullIsInfinity && HasNull(cluster, values))
    {
      forall i | i in cluster ensures distFromNullIsInfinity ==> !values[i].Null? {
        var p :| 0 <= p < |cluster| && cluster[p] == i;
        var q := if p == 0 then 1 else 0;
        assert cluster[q] in cluster;
        assert if p < q then RowsClose(cluster[p], cluster[q], d) else RowsClose(cluster[q], cluster[p], d);
      }
    }

    // The clusters of the left-hand side are all that has to be looked at.
    lemma ClustersDecide(index: seq<Cluster>, d: real)
      requires Valid() && Groups(index, relation, Lhs())
      ensures forall k :: 0 <= k < |index| ==> InRange(index[k], |relation.rows|)
      ensures (forall k :: 0 <= k < |index| ==> ClusterFits(index[k], d)) <==> MetricFd(d)
    {
      hide ClusterFits, RowsClose;
      forall k | 0 <= k < |index|
        ensures InRange(index[k], |relation.rows|) && (ClusterFits(index[k], d) <==> RowsFit(index[k], d))
      {
        assert index[k] in index && IsCluster(index[k], relation, Lhs());
        ClusterFitsRows(index[k], d);
      }
      if forall k :: 0 <= k < |index| ==> ClusterFits(index[k], d) {
        forall i: nat, j: nat | i < j && Together(relation, Lhs(), i, j) ensures RowsClose(i, j, d) {
          var c :| c in index && i in c;
          assert IsCluster(c, relation, Lhs()) && j in c;
          var k :| 0 <= k < |index| && index[k] == c;
          assert RowsFit(index[k], d);
        }
      }
      if MetricFd(d) {
        forall k | 0 <= k < |index| ensures RowsFit(index[k], d) {
          assert index[k] in index && IsCluster(index[k], relation, Lhs());
        }
      }
    }

    method CalculatePoints(cluster: Cluster) returns (points: seq<T>, hasNulls: bool)
      requires Valid() && InRange(cluster, |relation.rows|)
      ensures hasNulls <==> HasNull(cluster, values)
      ensures !(distFromNullIsInfinity && hasNulls) ==> points == PointsOf(cluster, values)
    {
      points, hasNulls := [], false;
      var k := 0;
      while k < |cluster|
        invariant 0 <= k <= |cluster|
        invariant hasNulls <==> exists p :: 0 <= p < k && values[cluster[p]].Null?
        invariant InRange(cluster[..k], |values|) && points == PointsOf(cluster[..k], values)
      {
        assert cluster[..k + 1][..k] == cluster[..k];
        var i := cluster[k];
        assert i in cluster;
        if values[i].Null? {
          if distFromNullIsInfinity && !IsExact() {
            return [], true;
          }
          hasNulls := true;
        } else if values[i].Present? {
          points := points + [values[i].point];
        }
        k := k + 1;
      }
      assert cluster[..|cluster|] == cluster;
      assert HasNull(cluster, values) ==> exists p :: 0 <= p < |cluster| && values[cluster[p]].Null?;
    }

    method VerifyCluster(cluster: Cluster) returns (holds: bool)
      requires Valid() && InRange(cluster, |relation.rows|)
      ensures IsExact() ==> (holds <==> ClusterFits(cluster, parameter))
      ensures !IsExact() ==> (holds <==> ClusterIsNear(cluster))
    {
      var points, hasNulls := CalculatePoints(cluster);
      if distFromNullIsInfinity && hasNulls {
        return false;
      }
      if numeric.Some? {
        holds := CompareNumericValues(points, numeric.value, parameter);
        SameCloseness(points, dist, NumericDist(numeric.value), parameter);
      } else if algo == Brute {
        holds := BruteVerifyCluster(points, dist, parameter);
      } else {
        holds := ApproxVerifyCluster(points, dist, parameter);
      }
    }

    method LhsPli(columnData: seq<PositionListIndex>) returns (pli: PositionListIndex)
      requires Valid() && AreColumnPlis(columnData, relation)
      ensures IsPliOf(pli, relation, Lhs())
    {
      hide IsPliOf;
      assert lhsIndices[0] in lhsIndices;
      pli := columnData[lhsIndices[0]];
      ghost var done: Vertical := {lhsIndices[0]};
      var i := 1;
      while i < |lhsIndices|
        invariant 1 <= i <= |lhsIndices| && done == (set c | c in lhsIndices[..i]) && done <= relation.Columns()
        invariant IsPliOf(pli, relation, done)
      {
        assert lhsIndices[..i + 1] == lhsIndices[..i] + [lhsIndices[i]];
        assert lhsIndices[i] in lhsIndices;
        pli := Intersect(pli, columnData[lhsIndices[i]], relation, done, {lhsIndices[i]});
        done := done + {lhsIndices[i]};
        i := i + 1;
      }
      assert lhsIndices[..|lhsIndices|] == lhsIndices && done == Lhs();
    }

    // Brute force and the comparison of numbers decide the dependency; the approximation compares with the first present value,
    // and so lies between half the parameter and the parameter.
    method VerifyMetricFD(columnData: seq<PositionListIndex>)
      requires Valid() && AreColumnPlis(columnData, relation)
      modifies this
      ensures IsExact() ==> (metricFdHolds <==> MetricFd(parameter))
      ensures !IsExact() ==> (metricFdHolds <==> NearFirst())
      ensures MetricFd(parameter / 2.0) ==> NearFirst()
      ensures NearFirst() && IsMetric(dist) ==> MetricFd(parameter)
    {
      hide ClusterFits, ClusterIsNear, IsMetric, MetricFd, NearFirst;
      var pli := LhsPli(columnData);
      var index := pli.index;
      ClustersDecide(index, parameter);
      NearClustersDecide(index);
      NearFirstBetween(index);
      metricFdHolds := true;
      var k := 0;
      while k < |index|
        invariant 0 <= k <= |index|
        invariant IsExact() ==> (metricFdHolds <==> forall l :: 0 <= l < k ==> ClusterFits(index[l], parameter))
        invariant !IsExact() ==> (metricFdHolds <==> forall l :: 0 <= l < k ==> ClusterIsNear(index[l]))
      {
        assert index[k] in index;
        var holds := VerifyCluster(index[k]);
        if !holds {
          metricFdHolds := false;
          if algo == Approx {
            break;
          }
        }
        k := k + 1;
      }
    }
  }

  // ----- the Levenshtein distance is one of the metrics -----

  ghost function LevenshteinDist(): (string, string) -> real {
    (s: string, t: string) => Levenshteins.Distance(s, t) as real
  }

  lemma LevenshteinIsMetric()
    ensures IsMetric(LevenshteinDist())
  {
    forall a: string, b: string ensures LevenshteinDist()(a, b) == LevenshteinDist()(b, a) {
      Levenshteins.DistanceIsMetric(a, b, a);
    }
    forall a: string, b: string, c: string
      ensures LevenshteinDist()(a, c) <= LevenshteinDist()(a, b) + LevenshteinDist()(b, c)
    {
      Levenshteins.DistanceIsMetric(a, b, c);
    }
  }
}
