// The g1 error of a dependency: the share of row pairs that agree on the left-hand side only.
module FdG1Strategies {
  import opened Relations
  import opened Options
  import opened Partitions
  import opened PositionListIndexes
  import opened VerticalMaps
  import opened PliCaches

  // The row pairs that agree on x but not on a, each once.
  ghost function ViolatingPairs(r: Relation, x: Vertical, a: nat): set<(nat, nat)> {
    set i, j | i in UpTo(|r.rows|) && j in UpTo(|r.rows|) && i < j && r.Agree(x, i, j) && a !in r.AgreeSet(i, j) :: (i, j)
  }

  lemma ViolationsAreDifference(r: Relation, x: Vertical, a: nat)
    requires a in r.Columns()
    ensures |ViolatingPairs(r, x, a)| == Nep(r, x) - Nep(r, x + {a})
  {
    var coarse, fine, violating := AgreeingPairs(r, x), AgreeingPairs(r, x + {a}), ViolatingPairs(r, x, a);
    forall i: nat, j: nat | i < j < |r.rows| ensures (i, j) in coarse <==> (i, j) in fine || (i, j) in violating {
      TogetherUnion(r, x, {a}, i, j);
    }
    forall i: nat, j: nat | (i, j) in fine ensures (i, j) !in violating {
      TogetherUnion(r, x, {a}, i, j);
    }
    forall p: (nat, nat) ensures p in coarse <==> p in fine + violating {
      assert p == (p.0, p.1);
    }
    assert coarse == fine + violating;
    assert fine !! violating by {
      forall p | p in fine ensures p !in violating {
        assert p == (p.0, p.1);
      }
    }
  }

  // The share lies between zero and one: zero exactly when the dependency holds, and one exactly when every two rows agree
  // on x and no two agree on a.
  lemma G1Decides(r: Relation, x: Vertical, a: nat, share: real)
    requires a in r.Columns() && |r.rows| >= 2
    requires share * (|r.rows| * (|r.rows| - 1) / 2) as real == |ViolatingPairs(r, x, a)| as real
    ensures 0.0 <= share <= 1.0
    ensures share == 0.0 <==> Holds(r, x, a)
    ensures share == 1.0 <==> forall i: nat, j: nat :: i < j < |r.rows| ==> r.Agree(x, i, j) && a !in r.AgreeSet(i, j)
  {
    hide Holds, AgreeingPairs, ViolatingPairs;
    ViolationsAreDifference(r, x, a);
    NepDecidesFd(r, x, a);
    NumTuplePairs(r);
    AtMostAllPairs(r, x, a);
    SomePairs(|r.rows|);
    FractionBounds(|ViolatingPairs(r, x, a)|, Pairs(|r.rows|), share);
  }

  lemma SomePairs(n: nat)
    requires n >= 2
    ensures Pairs(n) > 0
  {
    assert n * (n - 1) >= 2;
  }

  // All pairs violate the dependency exactly when their number is that of all pairs.
  lemma AtMostAllPairs(r: Relation, x: Vertical, a: nat)
    requires a in r.Columns()
    ensures |ViolatingPairs(r, x, a)| <= Nep(r, {})
    ensures |ViolatingPairs(r, x, a)| == Nep(r, {}) <==>
      forall i: nat, j: nat :: i < j < |r.rows| ==> r.Agree(x, i, j) && a !in r.AgreeSet(i, j)
  {
    hide ViolatingPairs, AgreeingPairs;
    var all, violating := AgreeingPairs(r, {}), ViolatingPairs(r, x, a);
    forall p | p in violating ensures p in all {
      PairViolates(r, x, a, p);
      EveryPairAgrees(r, p.0, p.1);
      assert p == (p.0, p.1);
    }
    SubsetSize(violating, all);
    if violating == all {
      forall i: nat, j: nat | i < j < |r.rows| ensures r.Agree(x, i, j) && a !in r.AgreeSet(i, j) {
        EveryPairAgrees(r, i, j);
        PairViolates(r, x, a, (i, j));
      }
    }
    if forall i: nat, j: nat :: i < j < |r.rows| ==> r.Agree(x, i, j) && a !in r.AgreeSet(i, j) {
      forall p | p in all ensures p in violating {
        assert p == (p.0, p.1);
        EveryPairAgrees(r, p.0, p.1);
        PairViolates(r, x, a, p);
      }
    }
  }

  lemma PairViolates(r: Relation, x: Vertical, a: nat, p: (nat, nat))
    ensures p in ViolatingPairs(r, x, a) <==> p.0 < p.1 < |r.rows| && r.Agree(x, p.0, p.1) && a !in r.AgreeSet(p.0, p.1)
  {
    assert p == (p.0, p.1);
  }

  lemma FractionBounds(part: nat, whole: nat, share: real)
    requires part <= whole && whole > 0 && share * whole as real == part as real
    ensures 0.0 <= share <= 1.0
    ensures share == 0.0 <==> part == 0
    ensures share == 1.0 <==> part == whole
  {
    var p, w := part as real, whole as real;
    assert share < 0.0 ==> share * w < 0.0;
    assert share > 1.0 ==> (share - 1.0) * w > 0.0;
    assert 0.0 < share ==> share * w > 0.0;
    assert share < 1.0 ==> (1.0 - share) * w > 0.0;
  }

  // The counts are the sizes of the groups.
  ghost predicate AreCounts(valueCounts: map<nat, nat>, partialIndex: map<nat, Cluster>) {
    valueCounts.Keys == partialIndex.Keys && forall k :: k in valueCounts ==> valueCounts[k] == |partialIndex[k]|
  }

  method CountValues(cluster: Cluster, probingTable: seq<nat>) returns (valueCounts: map<nat, nat>, ghost partialIndex: map<nat, Cluster>)
    requires forall i :: i in cluster ==> i < |probingTable|
    ensures AreCounts(valueCounts, partialIndex)
    ensures IsPartialIndex(partialIndex, cluster, TableKey(probingTable), TableSkip(probingTable))
  {
    hide IsPartialIndex;
    ghost var key, skip := TableKey(probingTable), TableSkip(probingTable);
    valueCounts, partialIndex := map[], map[];
    PartialIndexStart(key, skip);
    var p := 0;
    while p < |cluster|
      invariant 0 <= p <= |cluster| && AreCounts(valueCounts, partialIndex)
      invariant IsPartialIndex(partialIndex, cluster[..p], key, skip)
    {
      assert cluster[p] in cluster && cluster[..p + 1] == cluster[..p] + [cluster[p]];
      PartialIndexStep(partialIndex, cluster[..p], cluster[p], key, skip);
      var valueId := probingTable[cluster[p]];
      if valueId != SINGLETON_VALUE_ID {
        partialIndex := partialIndex[valueId := (if valueId in partialIndex then partialIndex[valueId] else []) + [cluster[p]]];
        valueCounts := valueCounts[valueId := (if valueId in valueCounts then valueCounts[valueId] else 0) + 1];
      }
      p := p + 1;
    }
    assert cluster[..p] == cluster;
  }

  // What the groups moved out so far say: the keys left are those of the other groups.
  ghost predicate MovedOut(groups: seq<Cluster>, keys: set<nat>, partialIndex: map<nat, Cluster>, cluster: Cluster,
                           key: nat -> nat, skip: nat -> bool) {
    && keys <= partialIndex.Keys && NoDuplicates(groups)
    && (forall g :: g in groups ==> |g| > 1 && exists k :: k !in keys && g == GroupOf(cluster, k, key, skip))
    && (forall k :: k in partialIndex && k !in keys && |partialIndex[k]| > 1 ==> partialIndex[k] in groups)
  }

  lemma MoveOut(groups: seq<Cluster>, keys: set<nat>, partialIndex: map<nat, Cluster>, cluster: Cluster,
                key: nat -> nat, skip: nat -> bool, k: nat)
    requires MovedOut(groups, keys, partialIndex, cluster, key, skip) && k in keys
    requires IsPartialIndex(partialIndex, cluster, key, skip)
    ensures MovedOut(if |partialIndex[k]| > 1 then groups + [partialIndex[k]] else groups, keys - {k}, partialIndex, cluster, key, skip)
  {
    hide GroupOf;
    var group := partialIndex[k];
    if |group| > 1 {
      forall g | g in groups ensures g != group {
        var l :| l !in keys && g == GroupOf(cluster, l, key, skip);
        assert g[0] in g && group[0] in group;
      }
    }
  }

  // Groups of one cluster have no more pairs than the cluster.
  lemma NoUnderflow(groups: seq<Cluster>, keys: set<nat>, partialIndex: map<nat, Cluster>, cluster: Cluster,
                    key: nat -> nat, skip: nat -> bool)
    requires MovedOut(groups, keys, partialIndex, cluster, key, skip) && Ascending(cluster)
    ensures Neps(groups) <= Pairs(|cluster|)
  {
    hide GroupOf;
    forall g | g in groups ensures Ascending(g) {
      var k :| k !in keys && g == GroupOf(cluster, k, key, skip);
      GroupIsAscending(cluster, k, key, skip);
    }
    forall m, l, i | 0 <= m < l < |groups| && i in groups[m] ensures i !in groups[l] {
      assert groups[m] in groups && groups[l] in groups;
      var k, k' :| k !in keys && groups[m] == GroupOf(cluster, k, key, skip)
        && k' !in keys && groups[l] == GroupOf(cluster, k', key, skip);
    }
    PairsInCount(groups);
    PairsOfCount(cluster);
    forall p | p in PairsIn(groups) ensures p in PairsOf(cluster) {
      assert p == (p.0, p.1);
      var m :| 0 <= m < |groups| && p.0 in groups[m] && p.1 in groups[m];
      assert groups[m] in groups;
    }
    SubsetSize(PairsIn(groups), PairsOf(cluster));
  }

  lemma NepsAppend(groups: seq<Cluster>, group: Cluster)
    ensures Neps(groups + [group]) == Neps(groups) + Pairs(|group|)
  {
    CountsAppend(groups, [group]);
    assert [group][1..] == [];
  }

  // All pairs of a cluster less the pairs of its groups; never below zero.
  method ViolationsInCluster(cluster: Cluster, probingTable: seq<nat>) returns (violations: nat, ghost groups: seq<Cluster>)
    requires Ascending(cluster) && forall i :: i in cluster ==> i < |probingTable|
    ensures IsSplit(groups, cluster, TableKey(probingTable), TableSkip(probingTable))
    ensures violations == Pairs(|cluster|) - Neps(groups)
  {
    hide IsPartialIndex, MovedOut, Neps;
    ghost var key, skip := TableKey(probingTable), TableSkip(probingTable);
    ghost var partialIndex;
    var valueCounts;
    valueCounts, partialIndex := CountValues(cluster, probingTable);
    violations, groups := Pairs(|cluster|), [];
    StartMoving(partialIndex, cluster, key, skip);
    var keys := valueCounts.Keys;
    while keys != {}
      invariant keys <= partialIndex.Keys && MovedOut(groups, keys, partialIndex, cluster, key, skip)
      invariant violations == Pairs(|cluster|) - Neps(groups)
      decreases keys
    {
      var k :| k in keys;
      MoveOut(groups, keys, partialIndex, cluster, key, skip, k);
      if |partialIndex[k]| > 1 {
        NepsAppend(groups, partialIndex[k]);
        groups := groups + [partialIndex[k]];
      }
      keys := keys - {k};
      NoUnderflow(groups, keys, partialIndex, cluster, key, skip);
      assert Pairs(0) == 0 == Pairs(1);
      violations := violations - Pairs(valueCounts[k]);
    }
    AllMoved(groups, partialIndex, cluster, key, skip);
  }

  lemma StartMoving(partialIndex: map<nat, Cluster>, cluster: Cluster, key: nat -> nat, skip: nat -> bool)
    ensures MovedOut([], partialIndex.Keys, partialIndex, cluster, key, skip) && Neps([]) == 0
  {
  }

  lemma AllMoved(groups: seq<Cluster>, partialIndex: map<nat, Cluster>, cluster: Cluster, key: nat -> nat, skip: nat -> bool)
    requires MovedOut(groups, {}, partialIndex, cluster, key, skip) && IsPartialIndex(partialIndex, cluster, key, skip)
    ensures IsSplit(groups, cluster, key, skip)
  {
    hide GroupOf;
    forall k | |GroupOf(cluster, k, key, skip)| > 1 ensures GroupOf(cluster, k, key, skip) in groups {
      assert k in partialIndex;
    }
  }

  class FdG1Strategy {
    const rhs: nat
    const pliCache: PLICache
    var calcCount: nat

    constructor (rhs: nat, pliCache: PLICache)
      ensures this.rhs == rhs && this.pliCache == pliCache && calcCount == 0
    {
      this.rhs, this.pliCache, calcCount := rhs, pliCache, 0;
    }

    // Counts by probing the right-hand side within the clusters of the left-hand side.
    method CountByProbing(lhsPli: PositionListIndex, ghost lhs: Vertical) returns (numViolations: nat)
      requires AreProbingTables(pliCache.probingTables, pliCache.relation)
      requires rhs in pliCache.relation.Columns() && lhs <= pliCache.relation.Columns()
      requires IsPliOf(lhsPli, pliCache.relation, lhs)
      ensures numViolations == |ViolatingPairs(pliCache.relation, lhs, rhs)|
    {
      hide IsPliOf, Contains, RefinedUpTo, IsSplit, KeyFits, Groups, Neps, ViolatingPairs, AgreeingPairs, PLICache.Valid;
      ghost var r, z := pliCache.relation, lhs + {rhs};
      var probingTable := pliCache.probingTables[rhs];
      var index := lhsPli.index;
      PliContains(lhsPli, r, lhs, z);
      PliShape(lhsPli, r, lhs);
      ghost var newIndex: seq<Cluster> := [];
      RefinedStart(index, r, z);
      numViolations := 0;
      var p := 0;
      NepsOfNone(index);
      while p < |index|
        invariant 0 <= p <= |index| && RefinedUpTo(newIndex, index, p, r, z)
        invariant numViolations == Neps(index[..p]) - Neps(newIndex)
      {
        ClusterInTable(index, p, |r.rows|);
        ghost var groups;
        var inCluster;
        inCluster, groups := ViolationsInCluster(index[p], probingTable);
        TableFits(index, p, probingTable, r, lhs, {rhs});
        RefineStep(newIndex, groups, index, p, TableKey(probingTable), TableSkip(probingTable), r, z);
        CountsAppend(newIndex, groups);
        assert index[..p + 1] == index[..p] + [index[p]];
        NepsAppend(index[..p], index[p]);
        newIndex := newIndex + groups;
        numViolations := numViolations + inCluster;
        p := p + 1;
      }
      assert index[..p] == index;
      RefinedAll(newIndex, index, r, z);
      NepCountsPairs(newIndex, r, z);
      NepCountsPairs(index, r, lhs);
      ViolationsAreDifference(r, lhs, rhs);
    }

    function CalculateG1(numViolations: nat): real {
      var numTuplePairs := Pairs(|pliCache.relation.rows|);
      if numTuplePairs == 0 then 0.0 else numViolations as real / numTuplePairs as real
    }

    // The violations are the same whether the joint index is cached or the right-hand side is probed.
    method CountViolations(lhs: Vertical) returns (numViolations: Option<nat>)
      requires pliCache.Valid() && rhs in pliCache.relation.Columns() && lhs <= pliCache.relation.Columns()
      modifies pliCache.index.Repr()
      ensures pliCache.Valid() && fresh(pliCache.index.Repr() - old(pliCache.index.Repr()))
      ensures Keeps(old(pliCache.index.Contents()), pliCache.index.Contents())
      ensures numViolations.Some? ==> numViolations.value == |ViolatingPairs(pliCache.relation, lhs, rhs)|
      ensures pliCache.cachingMethod != OtherCaching ==> numViolations.Some?
    {
      hide IsPliOf, PLICache.Valid, AgreeingPairs, ViolatingPairs, VerticalMap.Valid, VerticalMap.Contents, Pairs;
      ghost var r := pliCache.relation;
      ViolationsAreDifference(r, lhs, rhs);
      TablesOf(pliCache);
      if lhs == {} {
        pliCache.SingleCached(rhs);
        var rhsPli := pliCache.Get({rhs});
        PliCounts(rhsPli.value, r, {rhs});
        PliShape(rhsPli.value, r, {rhs});
        NumTuplePairs(r);
        assert {} + {rhs} == {rhs};
        return Some(Pairs(rhsPli.value.relationSize) - rhsPli.value.nep);
      }
      var lhsPli := pliCache.GetOrCreateFor(lhs);
      if lhsPli.None? {
        return None;
      }
      var jointPli := pliCache.Get(lhs + {rhs});
      if jointPli.None? {
        var counted := CountByProbing(lhsPli.value, lhs);
        return Some(counted);
      }
      PliCounts(lhsPli.value, r, lhs);
      PliCounts(jointPli.value, r, lhs + {rhs});
      return Some(lhsPli.value.nep - jointPli.value.nep);
    }

    // The share of the violating pairs among all pairs of rows, and zero without pairs.
    method CalculateError(lhs: Vertical) returns (error: Option<real>)
      requires pliCache.Valid() && rhs in pliCache.relation.Columns() && lhs <= pliCache.relation.Columns()
      modifies this`calcCount, pliCache.index.Repr()
      ensures pliCache.Valid() && fresh(pliCache.index.Repr() - old(pliCache.index.Repr()))
      ensures Keeps(old(pliCache.index.Contents()), pliCache.index.Contents())
      ensures error.Some? && |pliCache.relation.rows| >= 2 ==> var n := |pliCache.relation.rows|;
        error.value * (n * (n - 1) / 2) as real == |ViolatingPairs(pliCache.relation, lhs, rhs)| as real
      ensures error.Some? && |pliCache.relation.rows| < 2 ==> error.value == 0.0
      ensures error.Some? ==> calcCount == old(calcCount) + 1
      ensures pliCache.cachingMethod != OtherCaching ==> error.Some?
    {
      hide PLICache.Valid, ViolatingPairs, VerticalMap.Valid, VerticalMap.Contents;
      var numViolations := CountViolations(lhs);
      if numViolations.None? {
        return None;
      }
      ShareTimesPairs(numViolations.value, |pliCache.relation.rows|);
      error := Some(CalculateG1(numViolations.value));
      calcCount := calcCount + 1;
    }
  }

  lemma ShareTimesPairs(part: nat, n: nat)
    ensures n < 2 ==> Pairs(n) == 0
    ensures n >= 2 ==> Pairs(n) > 0 && part as real / Pairs(n) as real * (n * (n - 1) / 2) as real == part as real
  {
    if n >= 2 {
      SomePairs(n);
    }
  }

  lemma TablesOf(pliCache: PLICache)
    requires pliCache.Valid()
    ensures AreProbingTables(pliCache.probingTables, pliCache.relation)
  {
  }

  lemma NepsOfNone(index: seq<Cluster>)
    ensures Neps(index[..0]) == 0 == Neps([])
  {
  }

  lemma ClusterInTable(index: seq<Cluster>, p: nat, n: nat)
    requires DisjointClusters(index) && p < |index|
    requires forall k, q :: 0 <= k < |index| && 0 <= q < |index[k]| ==> index[k][q] < n
    ensures Ascending(index[p]) && forall i :: i in index[p] ==> i < n
  {
    assert index[p] in index;
  }
}
