// Position list indexes: construction, probing and intersection, proved to give canonical stripped partitions.
module PositionListIndexes {
  import opened Relations
  import opened Bits
  import opened Partitions

  const SINGLETON_VALUE_ID: nat := 0

  datatype PositionListIndex = Pli(index: seq<Cluster>, size: nat, nep: nat, relationSize: nat) {
    function GetNumNonSingletonCluster(): nat {
      |index|
    }

    function GetNumCluster(): int {
      |index| + relationSize - size
    }

    predicate IsConstant() {
      relationSize <= 1 || (GetNumNonSingletonCluster() == 1 && size == relationSize)
    }
  }

  // pli is the position list index of the columns x.
  ghost predicate IsPliOf(pli: PositionListIndex, r: Relation, x: Vertical) {
    && IsPartition(pli.index, r, x)
    && pli.size == Sizes(pli.index) && pli.nep == Neps(pli.index) && pli.relationSize == |r.rows|
  }

  // The table maps rows to cluster numbers, and rows outside all clusters to SINGLETON_VALUE_ID.
  ghost predicate IsProbingTable(table: seq<nat>, r: Relation, x: Vertical) {
    && |table| == |r.rows|
    && forall i: nat, j: nat :: i < |table| && j < |table| && i != j ==>
         (Together(r, x, i, j) <==> table[i] == table[j] != SINGLETON_VALUE_ID)
  }

  // ----- what the indexes of a relation say -----

  lemma PliUnique(p: PositionListIndex, q: PositionListIndex, r: Relation, x: Vertical)
    requires IsPliOf(p, r, x) && IsPliOf(q, r, x)
    ensures p == q
  {
    PartitionUnique(p.index, q.index, r, x);
  }

  lemma PliCounts(pli: PositionListIndex, r: Relation, x: Vertical)
    requires IsPliOf(pli, r, x)
    ensures pli.nep == Nep(r, x)
    ensures pli.GetNumCluster() == ClassCount(r, x)
    ensures pli.size == |RowsNotAlone(r, x)|
  {
    SizesCountRows(pli.index, r, x);
    NepCountsPairs(pli.index, r, x);
    ClassCountFormula(pli.index, r, x);
  }

  // ----- splitting clusters by a key -----

  // The rows of a cluster with a given key, in order; skipped rows have no key.
  function GroupOf<K(==)>(cluster: Cluster, k: K, key: nat -> K, skip: nat -> bool): (group: Cluster)
    ensures forall i :: i in group <==> i in cluster && !skip(i) && key(i) == k
  {
    if cluster == [] then [] else
      var last := cluster[|cluster| - 1];
      assert cluster == cluster[..|cluster| - 1] + [last];
      GroupOf(cluster[..|cluster| - 1], k, key, skip) + (if !skip(last) && key(last) == k then [last] else [])
  }

  lemma {:induction false} GroupIsAscending<K>(cluster: Cluster, k: K, key: nat -> K, skip: nat -> bool)
    requires Ascending(cluster)
    ensures Ascending(GroupOf(cluster, k, key, skip))
  {
    if cluster != [] {
      var init, last := cluster[..|cluster| - 1], cluster[|cluster| - 1];
      var group := GroupOf(init, k, key, skip);
      GroupIsAscending(init, k, key, skip);
      forall p | 0 <= p < |group| ensures group[p] < last {
        assert group[p] in group;
      }
    }
  }

  // groups are the groups of at least two rows, each once.
  ghost predicate IsSplit<K(!new)>(groups: seq<Cluster>, cluster: Cluster, key: nat -> K, skip: nat -> bool) {
    && NoDuplicates(groups)
    && (forall g :: g in groups ==> |g| > 1 && exists k :: g == GroupOf(cluster, k, key, skip))
    && (forall k :: |GroupOf(cluster, k, key, skip)| > 1 ==> GroupOf(cluster, k, key, skip) in groups)
  }

  // partialIndex maps each key of the rows to their group.
  ghost predicate IsPartialIndex<K(!new)>(partialIndex: map<K, Cluster>, cluster: Cluster, key: nat -> K, skip: nat -> bool) {
    && (forall k :: k in partialIndex ==> partialIndex[k] == GroupOf(cluster, k, key, skip))
    && (forall k :: k !in partialIndex ==> GroupOf(cluster, k, key, skip) == [])
  }

  // The inner loops of Probe, ProbeAll and CreateFor: groups the rows of one cluster by key.
  method SplitCluster<K(==, !new)>(cluster: Cluster, key: nat -> K, skip: nat -> bool) returns (groups: seq<Cluster>)
    ensures IsSplit(groups, cluster, key, skip)
  {
    hide GroupOf, IsPartialIndex;
    var partialIndex: map<K, Cluster> := map[];
    PartialIndexStart(key, skip);
    var p := 0;
    while p < |cluster|
      invariant 0 <= p <= |cluster|
      invariant IsPartialIndex(partialIndex, cluster[..p], key, skip)
    {
      var position := cluster[p];
      assert cluster[..p + 1] == cluster[..p] + [position];
      PartialIndexStep(partialIndex, cluster[..p], position, key, skip);
      if !skip(position) {
        var valueId := key(position);
        var group := if valueId in partialIndex then partialIndex[valueId] else [];
        partialIndex := partialIndex[valueId := group + [position]];
      }
      p := p + 1;
    }
    assert cluster[..p] == cluster;
    groups := GroupsOf(partialIndex, cluster, key, skip);
  }

  lemma PartialIndexStart<K(!new)>(key: nat -> K, skip: nat -> bool)
    ensures IsPartialIndex(map[], [], key, skip)
  {
  }

  lemma PartialIndexStep<K(!new)>(partialIndex: map<K, Cluster>, cluster: Cluster, last: nat, key: nat -> K, skip: nat -> bool)
    requires IsPartialIndex(partialIndex, cluster, key, skip)
    ensures if skip(last) then IsPartialIndex(partialIndex, cluster + [last], key, skip)
      else
        var group := if key(last) in partialIndex then partialIndex[key(last)] else [];
        IsPartialIndex(partialIndex[key(last) := group + [last]], cluster + [last], key, skip)
  {
    forall k ensures GroupOf(cluster + [last], k, key, skip) ==
      GroupOf(cluster, k, key, skip) + (if !skip(last) && key(last) == k then [last] else [])
    {
      assert (cluster + [last])[..|cluster|] == cluster;
    }
  }

  // Moves the groups of at least two rows out of the partial index.
  method GroupsOf<K(==, !new)>(partialIndex: map<K, Cluster>, ghost cluster: Cluster, ghost key: nat -> K, ghost skip: nat -> bool)
    returns (groups: seq<Cluster>)
    requires IsPartialIndex(partialIndex, cluster, key, skip)
    ensures IsSplit(groups, cluster, key, skip)
  {
    hide GroupOf;
    groups := [];
    var keys := partialIndex.Keys;
    while keys != {}
      invariant keys <= partialIndex.Keys
      invariant NoDuplicates(groups)
      invariant forall g :: g in groups ==> |g| > 1 && exists k :: k !in keys && g == GroupOf(cluster, k, key, skip)
      invariant forall k :: k in partialIndex && k !in keys && |partialIndex[k]| > 1 ==> partialIndex[k] in groups
      decreases keys
    {
      var k :| k in keys;
      var group := partialIndex[k];
      if |group| > 1 {
        forall g | g in groups ensures g != group {
          var l :| l !in keys && g == GroupOf(cluster, l, key, skip);
          assert g[0] in g && group[0] in group;
        }
        groups := groups + [group];
      }
      keys := keys - {k};
    }
  }

  // ----- sorting clusters by their first row -----

  function InsertCluster(c: Cluster, sorted: seq<Cluster>): (r: seq<Cluster>)
    requires c != [] && forall k :: 0 <= k < |sorted| ==> sorted[k] != []
    ensures forall k :: 0 <= k < |r| ==> r[k] != []
    ensures multiset(r) == multiset(sorted) + multiset{c}
    ensures Sizes(r) == Sizes(sorted) + |c| && Neps(r) == Neps(sorted) + Pairs(|c|)
  {
    if sorted == [] || c[0] <= sorted[0][0] then [c] + sorted
    else
      assert sorted == [sorted[0]] + sorted[1..];
      [sorted[0]] + InsertCluster(c, sorted[1..])
  }

  function SortClusters(clusters: seq<Cluster>): (r: seq<Cluster>)
    requires forall k :: 0 <= k < |clusters| ==> clusters[k] != []
    ensures forall k :: 0 <= k < |r| ==> r[k] != []
    ensures multiset(r) == multiset(clusters)
    ensures Sizes(r) == Sizes(clusters) && Neps(r) == Neps(clusters)
  {
    if clusters == [] then []
    else
      assert clusters == [clusters[0]] + clusters[1..];
      InsertCluster(clusters[0], SortClusters(clusters[1..]))
  }

  lemma {:induction false} InsertKeepsOrder(c: Cluster, sorted: seq<Cluster>)
    requires c != [] && SortedByFirst(sorted)
    requires forall d :: d in sorted ==> d != [] && d[0] != c[0]
    ensures SortedByFirst(InsertCluster(c, sorted))
  {
    if sorted != [] && c[0] > sorted[0][0] {
      InsertKeepsOrder(c, sorted[1..]);
      var rest := InsertCluster(c, sorted[1..]);
      FirstStaysFirst(sorted[0], sorted[1..], c, rest);
    }
  }

  lemma FirstStaysFirst(first: Cluster, tail: seq<Cluster>, c: Cluster, rest: seq<Cluster>)
    requires first != [] && SortedByFirst([first] + tail) && SortedByFirst(rest)
    requires c != [] && first[0] < c[0] && multiset(rest) == multiset(tail) + multiset{c}
    ensures SortedByFirst([first] + rest)
  {
    var whole := [first] + tail;
    forall i | 0 <= i < |tail| ensures tail[i] != [] && first[0] < tail[i][0] {
      assert whole[i + 1] == tail[i] && whole[0] == first;
    }
    forall k | 0 <= k < |rest| ensures rest[k] != [] && first[0] < rest[k][0] {
      assert rest[k] in multiset(rest);
      assert rest[k] == c || rest[k] in tail;
    }
  }

  ghost predicate DistinctFirsts(clusters: seq<Cluster>) {
    && (forall k :: 0 <= k < |clusters| ==> clusters[k] != [])
    && forall k, l :: 0 <= k < l < |clusters| ==> clusters[k][0] != clusters[l][0]
  }

  lemma {:induction false} SortingSorts(clusters: seq<Cluster>)
    requires DistinctFirsts(clusters)
    ensures SortedByFirst(SortClusters(clusters))
  {
    if clusters != [] {
      SortingSorts(clusters[1..]);
      var rest := SortClusters(clusters[1..]);
      forall d | d in rest ensures d != [] && d[0] != clusters[0][0] {
        assert d in multiset(rest);
        assert d in clusters[1..];
      }
      InsertKeepsOrder(clusters[0], rest);
    }
  }

  // Sorting the classes of a column set gives its canonical partition.
  lemma SortedGroups(clusters: seq<Cluster>, r: Relation, x: Vertical)
    requires Groups(clusters, r, x) && forall k :: 0 <= k < |clusters| ==> clusters[k] != []
    ensures IsPartition(SortClusters(clusters), r, x)
  {
    hide Groups, SortClusters;
    GroupsAreDisjoint(clusters, r, x);
    forall k, l | 0 <= k < l < |clusters| ensures clusters[k][0] != clusters[l][0] {
      assert clusters[k][0] in clusters[k];
    }
    SortingSorts(clusters);
    SameGroups(clusters, SortClusters(clusters), r, x);
  }

  lemma SameGroups(clusters: seq<Cluster>, sorted: seq<Cluster>, r: Relation, x: Vertical)
    requires Groups(clusters, r, x) && SortedByFirst(sorted) && multiset(sorted) == multiset(clusters)
    ensures Groups(sorted, r, x)
  {
    forall c ensures c in sorted <==> c in clusters {
      assert c in sorted <==> c in multiset(sorted);
      assert c in clusters <==> c in multiset(clusters);
    }
  }

  // ----- refining clusters -----

  // The clusters contain whole classes of z, and every class of at least two rows.
  ghost predicate Contains(index: seq<Cluster>, r: Relation, z: Vertical) {
    && DisjointClusters(index)
    && (forall c, i :: c in index && i in c ==> r.IsRow(i))
    && (forall c, i, j :: c in index && i in c && Together(r, z, i, j) ==> j in c)
    && (forall i: nat, j: nat :: i != j && Together(r, z, i, j) ==> exists c :: c in index && i in c)
  }

  // Within a cluster, rows agree on z exactly when both have the same key.
  ghost predicate KeyFits<K>(c: Cluster, key: nat -> K, skip: nat -> bool, r: Relation, z: Vertical) {
    forall i, j :: i in c && j in c && i != j ==>
      (Together(r, z, i, j) <==> !skip(i) && !skip(j) && key(i) == key(j))
  }

  // newIndex has the classes of z that lie in the first p clusters.
  ghost predicate RefinedUpTo(newIndex: seq<Cluster>, index: seq<Cluster>, p: nat, r: Relation, z: Vertical) {
    && NoDuplicates(newIndex)
    && (forall g :: g in newIndex ==> IsCluster(g, r, z) && exists k :: 0 <= k < p && k < |index| && g[0] in index[k])
    && (forall k, i, j: nat :: 0 <= k < p && k < |index| && i in index[k] && i != j && Together(r, z, i, j) ==>
          exists g :: g in newIndex && i in g)
  }

  lemma RefineStep<K(!new)>(newIndex: seq<Cluster>, groups: seq<Cluster>, index: seq<Cluster>, p: nat,
                            key: nat -> K, skip: nat -> bool, r: Relation, z: Vertical)
    requires Contains(index, r, z) && p < |index| && RefinedUpTo(newIndex, index, p, r, z) && z <= r.Columns()
    requires IsSplit(groups, index[p], key, skip) && KeyFits(index[p], key, skip, r, z)
    ensures RefinedUpTo(newIndex + groups, index, p + 1, r, z)
  {
    var all := newIndex + groups;
    forall g | g in groups ensures IsCluster(g, r, z) && g[0] in index[p] {
      GroupIsCluster(g, index, p, key, skip, r, z, groups);
    }
    forall k, l | 0 <= k < |newIndex| && 0 <= l < |groups| ensures newIndex[k] != groups[l] {
      assert newIndex[k] in newIndex && groups[l] in groups;
      var m :| 0 <= m < p && newIndex[k][0] in index[m];
    }
    forall k, i, j: nat | 0 <= k < p + 1 && i in index[k] && i != j && Together(r, z, i, j)
      ensures exists g :: g in all && i in g
    {
      if k < p {
        var g :| g in newIndex && i in g;
        assert g in all;
      } else {
        ClassIsSplitOff(index, p, key, skip, r, z, groups, i, j);
        var g :| g in groups && i in g;
        assert g in all;
      }
    }
  }

  lemma GroupIsCluster<K(!new)>(g: Cluster, index: seq<Cluster>, p: nat, key: nat -> K, skip: nat -> bool,
                                r: Relation, z: Vertical, groups: seq<Cluster>)
    requires Contains(index, r, z) && p < |index| && g in groups && z <= r.Columns()
    requires IsSplit(groups, index[p], key, skip) && KeyFits(index[p], key, skip, r, z)
    ensures IsCluster(g, r, z) && g[0] in index[p]
  {
    var c := index[p];
    var k :| g == GroupOf(c, k, key, skip);
    assert c in index;
    GroupIsAscending(c, k, key, skip);
    assert g[0] in g;
    forall i, j | i in g ensures r.IsRow(i) && (j in g <==> Together(r, z, i, j)) {
      if Together(r, z, i, j) {
        assert j in c;
      }
    }
  }

  lemma ClassIsSplitOff<K(!new)>(index: seq<Cluster>, p: nat, key: nat -> K, skip: nat -> bool,
                                 r: Relation, z: Vertical, groups: seq<Cluster>, i: nat, j: nat)
    requires Contains(index, r, z) && p < |index|
    requires IsSplit(groups, index[p], key, skip) && KeyFits(index[p], key, skip, r, z)
    requires i in index[p] && i != j && Together(r, z, i, j)
    ensures exists g :: g in groups && i in g
  {
    var c := index[p];
    assert c in index && j in c;
    var g := GroupOf(c, key(i), key, skip);
    assert i in g && j in g;
    assert |g| > 1;
    assert g in groups;
  }

  lemma RefinedAll(newIndex: seq<Cluster>, index: seq<Cluster>, r: Relation, z: Vertical)
    requires Contains(index, r, z) && RefinedUpTo(newIndex, index, |index|, r, z)
    ensures Groups(newIndex, r, z)
  {
    forall i: nat, j: nat | i != j && Together(r, z, i, j) ensures exists g :: g in newIndex && i in g {
      var c :| c in index && i in c;
      var k :| 0 <= k < |index| && index[k] == c;
    }
  }

  lemma PartitionContainsFiner(index: seq<Cluster>, r: Relation, x: Vertical, z: Vertical)
    requires Groups(index, r, x) && x <= z
    ensures Contains(index, r, z)
  {
    GroupsAreDisjoint(index, r, x);
    forall c, i, j | c in index && i in c && Together(r, z, i, j) ensures j in c {
      assert Together(r, x, i, j);
      assert IsCluster(c, r, x);
    }
    forall c | c in index ensures forall i :: i in c ==> r.IsRow(i) {
      assert IsCluster(c, r, x);
    }
    forall i: nat, j: nat | i != j && Together(r, z, i, j) ensures exists c :: c in index && i in c {
      assert Together(r, x, i, j);
    }
  }

  // ----- the operations -----

  lemma CountsAppend(p: seq<Cluster>, q: seq<Cluster>)
    ensures Sizes(p + q) == Sizes(p) + Sizes(q) && Neps(p + q) == Neps(p) + Neps(q)
  {
    if p == [] {
      assert p + q == q;
    } else {
      CountsAppend(p[1..], q);
      assert (p + q)[1..] == p[1..] + q;
    }
  }

  // Sorting refined clusters completes an index of z.
  lemma RefinedIndex(newIndex: seq<Cluster>, index: seq<Cluster>, r: Relation, z: Vertical)
    requires Contains(index, r, z) && RefinedUpTo(newIndex, index, |index|, r, z)
    ensures forall k :: 0 <= k < |newIndex| ==> newIndex[k] != []
    ensures IsPliOf(Pli(SortClusters(newIndex), Sizes(newIndex), Neps(newIndex), |r.rows|), r, z)
  {
    RefinedAll(newIndex, index, r, z);
    GroupsNonEmpty(newIndex, r, z);
    SortedGroups(newIndex, r, z);
  }

  // The index of one column; with nullEqNull off, nulls form no cluster.
  method CreateFor(data: seq<int>, nullEqNull: bool, ghost r: Relation, ghost c: nat) returns (pli: PositionListIndex)
    requires c in r.Columns() && |data| == |r.rows| && nullEqNull == r.nullEqNull
    requires forall i :: 0 <= i < |data| ==> data[i] == r.rows[i][c]
    ensures IsPliOf(pli, r, {c})
    ensures forall i: nat, j: nat :: i < |data| && j < |data| && i != j ==>
      (InOneCluster(pli.index, i, j) <==> data[i] == data[j] && (nullEqNull || data[i] != NULL_VALUE_ID))
  {
    hide IsPliOf, RefinedUpTo, IsSplit, Contains, InOneCluster;
    var positions := AllRows(|data|);
    var clusters := SplitCluster(positions, ColumnKey(data), ColumnSkip(data, nullEqNull));
    AllRowsContain(data, nullEqNull, r, c);
    RefinedStart([positions], r, {c});
    RefineStep([], clusters, [positions], 0, ColumnKey(data), ColumnSkip(data, nullEqNull), r, {c});
    assert [] + clusters == clusters;
    RefinedIndex(clusters, [positions], r, {c});
    pli := Pli(SortClusters(clusters), Sizes(clusters), Neps(clusters), |data|);
    forall i: nat, j: nat | i < |data| && j < |data| && i != j
      ensures InOneCluster(pli.index, i, j) <==> data[i] == data[j] && (nullEqNull || data[i] != NULL_VALUE_ID)
    {
      OneClusterMeansTogether(pli, r, {c}, i, j);
      AgreeOnValues(r, {c}, i, j);
    }
  }

  ghost predicate InOneCluster(index: seq<Cluster>, i: nat, j: nat) {
    exists c :: c in index && i in c && j in c
  }

  lemma OneClusterMeansTogether(pli: PositionListIndex, r: Relation, x: Vertical, i: nat, j: nat)
    requires IsPliOf(pli, r, x) && i != j
    ensures InOneCluster(pli.index, i, j) <==> Together(r, x, i, j)
  {
    if InOneCluster(pli.index, i, j) {
      var c :| c in pli.index && i in c && j in c;
      assert IsCluster(c, r, x);
    }
    if Together(r, x, i, j) {
      var c :| c in pli.index && i in c;
      assert IsCluster(c, r, x) && j in c;
    }
  }

  function ColumnKey(data: seq<int>): nat -> int {
    (i: nat) => if i < |data| then data[i] else NULL_VALUE_ID
  }

  function ColumnSkip(data: seq<int>, nullEqNull: bool): nat -> bool {
    (i: nat) => !nullEqNull && ColumnKey(data)(i) == NULL_VALUE_ID
  }

  lemma AllRowsContain(data: seq<int>, nullEqNull: bool, r: Relation, c: nat)
    requires c in r.Columns() && |data| == |r.rows| && nullEqNull == r.nullEqNull
    requires forall i :: 0 <= i < |data| ==> data[i] == r.rows[i][c]
    ensures Contains([AllRows(|data|)], r, {c})
    ensures KeyFits(AllRows(|data|), ColumnKey(data), ColumnSkip(data, nullEqNull), r, {c})
  {
    forall i: nat, j: nat ensures Together(r, {c}, i, j) <==> i < |data| && j < |data| && r.Same(i, j, c) {
      if i < |data| && j < |data| {
        assert c in r.AgreeSet(i, j) <==> r.Same(i, j, c);
      }
    }
    assert AllRows(|data|) in [AllRows(|data|)];
  }

  method CalculateAndGetProbingTable(pli: PositionListIndex, ghost r: Relation, ghost x: Vertical)
    returns (probingTable: seq<nat>)
    requires IsPliOf(pli, r, x)
    ensures IsProbingTable(probingTable, r, x)
  {
    hide IsPliOf, TableUpTo;
    PliShape(pli, r, x);
    probingTable := seq(pli.relationSize, _ => SINGLETON_VALUE_ID);
    TableStart(pli.relationSize, pli.index);
    var nextClusterId := SINGLETON_VALUE_ID + 1;
    while nextClusterId <= |pli.index|
      invariant 1 <= nextClusterId <= |pli.index| + 1 && |probingTable| == pli.relationSize
      invariant TableUpTo(probingTable, pli.index, nextClusterId - 1, 0)
    {
      var cluster := pli.index[nextClusterId - 1];
      var p := 0;
      while p < |cluster|
        invariant 0 <= p <= |cluster| && |probingTable| == pli.relationSize
        invariant TableUpTo(probingTable, pli.index, nextClusterId - 1, p)
      {
        EnterRow(probingTable, pli.index, nextClusterId - 1, p);
        probingTable := probingTable[cluster[p] := nextClusterId];
        p := p + 1;
      }
      NextCluster(probingTable, pli.index, nextClusterId - 1);
      nextClusterId := nextClusterId + 1;
    }
    TableIsProbingTable(probingTable, pli, r, x);
  }

  // The clusters before k, and the first p rows of cluster k, are entered in the table.
  ghost predicate TableUpTo(table: seq<nat>, index: seq<Cluster>, k: nat, p: nat) {
    && (forall l, q :: 0 <= l < |index| && 0 <= q < |index[l]| && (l < k || (l == k && q < p)) ==>
          index[l][q] < |table| && table[index[l][q]] == l + 1)
    && (forall i :: 0 <= i < |table| && table[i] != SINGLETON_VALUE_ID ==>
          table[i] <= |index| && i in index[table[i] - 1])
  }

  lemma TableStart(size: nat, index: seq<Cluster>)
    ensures TableUpTo(seq(size, _ => SINGLETON_VALUE_ID), index, 0, 0)
  {
  }

  lemma EnterRow(table: seq<nat>, index: seq<Cluster>, k: nat, p: nat)
    requires DisjointClusters(index) && TableUpTo(table, index, k, p)
    requires k < |index| && p < |index[k]| && index[k][p] < |table|
    ensures TableUpTo(table[index[k][p] := k + 1], index, k, p + 1)
  {
    var row := index[k][p];
    assert row in index[k];
    forall l, q | 0 <= l < |index| && 0 <= q < |index[l]| && (l < k || (l == k && q < p)) ensures index[l][q] != row {
      assert index[l][q] in index[l] && index[k] in index;
    }
  }

  lemma NextCluster(table: seq<nat>, index: seq<Cluster>, k: nat)
    requires k < |index| && TableUpTo(table, index, k, |index[k]|)
    ensures TableUpTo(table, index, k + 1, 0)
  {
  }

  lemma PliShape(pli: PositionListIndex, r: Relation, x: Vertical)
    requires IsPliOf(pli, r, x)
    ensures pli.relationSize == |r.rows| && DisjointClusters(pli.index)
    ensures forall k, q :: 0 <= k < |pli.index| && 0 <= q < |pli.index[k]| ==> pli.index[k][q] < |r.rows|
  {
    GroupsAreDisjoint(pli.index, r, x);
    forall k, q | 0 <= k < |pli.index| && 0 <= q < |pli.index[k]| ensures pli.index[k][q] < |r.rows| {
      assert IsCluster(pli.index[k], r, x) && pli.index[k][q] in pli.index[k];
    }
  }

  lemma TableIsProbingTable(table: seq<nat>, pli: PositionListIndex, r: Relation, x: Vertical)
    requires IsPliOf(pli, r, x) && |table| == |r.rows| && TableUpTo(table, pli.index, |pli.index|, 0)
    ensures IsProbingTable(table, r, x)
  {
    hide IsPliOf, TableUpTo;
    forall i: nat, j: nat | i < |table| && j < |table| && i != j
      ensures Together(r, x, i, j) <==> table[i] == table[j] != SINGLETON_VALUE_ID
    {
      TogetherInTable(table, pli, r, x, i, j);
      TableTogether(table, pli, r, x, i, j);
    }
  }

  lemma TogetherInTable(table: seq<nat>, pli: PositionListIndex, r: Relation, x: Vertical, i: nat, j: nat)
    requires IsPliOf(pli, r, x) && |table| == |r.rows| && TableUpTo(table, pli.index, |pli.index|, 0)
    requires i < |table| && j < |table| && i != j
    ensures Together(r, x, i, j) ==> table[i] == table[j] != SINGLETON_VALUE_ID
  {
    if Together(r, x, i, j) {
      var c :| c in pli.index && i in c;
      assert IsCluster(c, r, x) && j in c;
      var k :| 0 <= k < |pli.index| && pli.index[k] == c;
      var p :| 0 <= p < |c| && c[p] == i;
      var q :| 0 <= q < |c| && c[q] == j;
      assert pli.index[k][p] == i && pli.index[k][q] == j;
    }
  }

  lemma TableTogether(table: seq<nat>, pli: PositionListIndex, r: Relation, x: Vertical, i: nat, j: nat)
    requires IsPliOf(pli, r, x) && |table| == |r.rows| && TableUpTo(table, pli.index, |pli.index|, 0)
    requires i < |table| && j < |table|
    ensures table[i] == table[j] != SINGLETON_VALUE_ID ==> Together(r, x, i, j)
  {
    if table[i] == table[j] != SINGLETON_VALUE_ID {
      assert IsCluster(pli.index[table[i] - 1], r, x);
    }
  }

  function TableKey(table: seq<nat>): nat -> nat {
    (i: nat) => if i < |table| then table[i] else SINGLETON_VALUE_ID
  }

  function TableSkip(table: seq<nat>): nat -> bool {
    (i: nat) => i >= |table| || table[i] == SINGLETON_VALUE_ID
  }

  lemma TableFits(index: seq<Cluster>, p: nat, table: seq<nat>, r: Relation, x: Vertical, y: Vertical)
    requires Groups(index, r, x) && p < |index| && IsProbingTable(table, r, y)
    ensures KeyFits(index[p], TableKey(table), TableSkip(table), r, x + y)
  {
    var c := index[p];
    assert IsCluster(c, r, x);
    forall i, j | i in c && j in c && i != j ensures Together(r, x + y, i, j) <==>
        !TableSkip(table)(i) && !TableSkip(table)(j) && TableKey(table)(i) == TableKey(table)(j)
    {
      TogetherUnion(r, x, y, i, j);
      assert Together(r, x, i, j);
    }
  }

  lemma RefinedStart(index: seq<Cluster>, r: Relation, z: Vertical)
    ensures RefinedUpTo([], index, 0, r, z)
  {
  }

  lemma PliContains(pli: PositionListIndex, r: Relation, x: Vertical, z: Vertical)
    requires IsPliOf(pli, r, x) && x <= z
    ensures Contains(pli.index, r, z) && Groups(pli.index, r, x) && pli.relationSize == |r.rows|
  {
    PartitionContainsFiner(pli.index, r, x, z);
  }

  // Refines the clusters by a probing table of y.
  method Probe(pli: PositionListIndex, probingTable: seq<nat>, ghost r: Relation, ghost x: Vertical, ghost y: Vertical)
    returns (joint: PositionListIndex)
    requires IsPliOf(pli, r, x) && IsProbingTable(probingTable, r, y) && x + y <= r.Columns()
    ensures IsPliOf(joint, r, x + y)
  {
    hide IsPliOf, Contains, RefinedUpTo, IsSplit, KeyFits, Groups;
    PliContains(pli, r, x, x + y);
    var newIndex: seq<Cluster> := [];
    var newSize, newNep, p := 0, 0, 0;
    RefinedStart(pli.index, r, x + y);
    while p < |pli.index|
      invariant 0 <= p <= |pli.index|
      invariant newSize == Sizes(newIndex) && newNep == Neps(newIndex)
      invariant RefinedUpTo(newIndex, pli.index, p, r, x + y)
    {
      var groups := SplitCluster(pli.index[p], TableKey(probingTable), TableSkip(probingTable));
      TableFits(pli.index, p, probingTable, r, x, y);
      RefineStep(newIndex, groups, pli.index, p, TableKey(probingTable), TableSkip(probingTable), r, x + y);
      CountsAppend(newIndex, groups);
      newSize, newNep := newSize + Sizes(groups), newNep + Neps(groups);
      newIndex := newIndex + groups;
      p := p + 1;
    }
    RefinedIndex(newIndex, pli.index, r, x + y);
    joint := Pli(SortClusters(newIndex), newSize, newNep, pli.relationSize);
  }

  // The index of the union of two column sets, whichever of the two is probed.
  method Intersect(pli: PositionListIndex, that: PositionListIndex, ghost r: Relation, ghost x: Vertical, ghost y: Vertical)
    returns (joint: PositionListIndex)
    requires IsPliOf(pli, r, x) && IsPliOf(that, r, y) && x + y <= r.Columns()
    ensures IsPliOf(joint, r, x + y)
  {
    if pli.size > that.size {
      var probingTable := CalculateAndGetProbingTable(pli, r, x);
      joint := Probe(that, probingTable, r, y, x);
      assert y + x == x + y;
    } else {
      var probingTable := CalculateAndGetProbingTable(that, r, y);
      joint := Probe(pli, probingTable, r, x, y);
    }
  }

  // ----- probing several columns at once -----

  ghost predicate AreProbingTables(tables: seq<seq<nat>>, r: Relation) {
    && |tables| == r.numColumns
    && forall c :: 0 <= c < |tables| ==> IsProbingTable(tables[c], r, {c})
  }

  // The cluster numbers of a row in the probing columns from c on; None when the row is a singleton in one of them.
  function TakeProbe(position: nat, tables: seq<seq<nat>>, probingColumns: Vertical, c: nat): (probe: seq<nat>)
    requires c <= |tables|
    decreases |tables| - c
  {
    if c == |tables| then []
    else
      var rest := TakeProbe(position, tables, probingColumns, c + 1);
      if c in probingColumns then [TableKey(tables[c])(position)] + rest else rest
  }

  function HasSingleton(position: nat, tables: seq<seq<nat>>, probingColumns: Vertical, c: nat): bool
    requires c <= |tables|
    decreases |tables| - c
  {
    c < |tables| &&
    ((c in probingColumns && TableSkip(tables[c])(position)) || HasSingleton(position, tables, probingColumns, c + 1))
  }

  // Two rows agree on the probing columns exactly when both probes succeed and are equal.
  lemma {:induction false} ProbesDecide(i: nat, j: nat, tables: seq<seq<nat>>, y: Vertical, c: nat, r: Relation)
    requires AreProbingTables(tables, r) && c <= |tables| && y <= r.Columns()
    requires i < |r.rows| && j < |r.rows| && i != j
    ensures |TakeProbe(i, tables, y, c)| == |TakeProbe(j, tables, y, c)|
    ensures Together(r, AboveOrAt(y, c), i, j) <==>
      !HasSingleton(i, tables, y, c) && !HasSingleton(j, tables, y, c)
      && TakeProbe(i, tables, y, c) == TakeProbe(j, tables, y, c)
    decreases |tables| - c
  {
    if c == |tables| {
      assert AboveOrAt(y, c) == {};
    } else {
      ProbesDecide(i, j, tables, y, c + 1, r);
      if c in y {
        assert AboveOrAt(y, c) == {c} + AboveOrAt(y, c + 1);
        TogetherUnion(r, {c}, AboveOrAt(y, c + 1), i, j);
        var p, q := TakeProbe(i, tables, y, c), TakeProbe(j, tables, y, c);
        assert p == q <==> p[0] == q[0] && p[1..] == q[1..] by {
          assert p == [p[0]] + p[1..] && q == [q[0]] + q[1..];
        }
      } else {
        assert AboveOrAt(y, c) == AboveOrAt(y, c + 1);
      }
    }
  }

  lemma ProbesFit(index: seq<Cluster>, p: nat, tables: seq<seq<nat>>, r: Relation, x: Vertical, y: Vertical)
    requires Groups(index, r, x) && p < |index| && AreProbingTables(tables, r) && y <= r.Columns()
    ensures KeyFits(index[p], (i: nat) => TakeProbe(i, tables, y, 0), (i: nat) => HasSingleton(i, tables, y, 0), r, x + y)
  {
    var c := index[p];
    assert IsCluster(c, r, x);
    assert AboveOrAt(y, 0) == y;
    forall i, j | i in c && j in c && i != j ensures Together(r, x + y, i, j) <==>
        !HasSingleton(i, tables, y, 0) && !HasSingleton(j, tables, y, 0)
        && TakeProbe(i, tables, y, 0) == TakeProbe(j, tables, y, 0)
    {
      TogetherUnion(r, x, y, i, j);
      ProbesDecide(i, j, tables, y, 0, r);
      assert Together(r, x, i, j);
    }
  }

  // Refines the clusters by the columns y at once; the result is the same as by repeated intersection.
  method ProbeAll(pli: PositionListIndex, probingColumns: Vertical, tables: seq<seq<nat>>, ghost r: Relation, ghost x: Vertical)
    returns (joint: PositionListIndex)
    requires IsPliOf(pli, r, x) && AreProbingTables(tables, r) && x + probingColumns <= r.Columns()
    ensures IsPliOf(joint, r, x + probingColumns)
  {
    hide IsPliOf, Contains, RefinedUpTo, IsSplit, KeyFits, Groups;
    ghost var z := x + probingColumns;
    PliContains(pli, r, x, z);
    var newIndex: seq<Cluster> := [];
    var newSize, newNep, p := 0, 0, 0;
    var key := (i: nat) => TakeProbe(i, tables, probingColumns, 0);
    var skip := (i: nat) => HasSingleton(i, tables, probingColumns, 0);
    RefinedStart(pli.index, r, z);
    while p < |pli.index|
      invariant 0 <= p <= |pli.index|
      invariant newSize == Sizes(newIndex) && newNep == Neps(newIndex)
      invariant RefinedUpTo(newIndex, pli.index, p, r, z)
    {
      var groups := SplitCluster(pli.index[p], key, skip);
      ProbesFit(pli.index, p, tables, r, x, probingColumns);
      RefineStep(newIndex, groups, pli.index, p, key, skip, r, z);
      CountsAppend(newIndex, groups);
      newSize, newNep := newSize + Sizes(groups), newNep + Neps(groups);
      newIndex := newIndex + groups;
      p := p + 1;
    }
    RefinedIndex(newIndex, pli.index, r, z);
    joint := Pli(SortClusters(newIndex), newSize, newNep, pli.relationSize);
  }

  // ----- consequences -----

  lemma SizesBounded(index: seq<Cluster>, r: Relation, x: Vertical)
    requires Groups(index, r, x)
    ensures Sizes(index) <= |r.rows|
  {
    GroupsAreDisjoint(index, r, x);
    RowsInCount(index);
    RowsAreRows(index, r, x);
    SubsetSize(RowsIn(index), UpTo(|r.rows|));
  }

  // The test on cluster count and size says whether the column is constant.
  lemma ConstantColumn(pli: PositionListIndex, r: Relation, a: nat)
    requires IsPliOf(pli, r, {a}) && a in r.Columns()
    ensures pli.IsConstant() <==> IsConstant(r, a)
  {
    hide IsPliOf, Groups, ClassCount;
    if |r.rows| >= 2 {
      assert pli.relationSize == |r.rows| && pli.GetNumCluster() == ClassCount(r, {a}) by {
        PliCounts(pli, r, {a});
        PliContains(pli, r, {a}, {a});
      }
      assert pli.size <= |r.rows| by {
        PliContains(pli, r, {a}, {a});
        PliSize(pli, r, {a});
        SizesBounded(pli.index, r, {a});
      }
      OneClassOfNothing(r);
      ClassCountDecides(r, {}, {a});
      if IsConstant(r, a) {
        ConstantHasCluster(pli, r, a);
      }
    } else {
      PliContains(pli, r, {a}, {a});
    }
  }

  lemma PliSize(pli: PositionListIndex, r: Relation, x: Vertical)
    requires IsPliOf(pli, r, x)
    ensures pli.size == Sizes(pli.index) && pli.nep == Neps(pli.index)
  {
  }

  lemma ConstantHasCluster(pli: PositionListIndex, r: Relation, a: nat)
    requires IsPliOf(pli, r, {a}) && |r.rows| >= 2 && IsConstant(r, a)
    ensures |pli.index| >= 1
  {
    assert r.Agree({}, 0, 1) && a in r.AgreeSet(0, 1);
    assert Together(r, {a}, 0, 1);
  }

  // Intersection is commutative and associative as a sequence of clusters: intersecting three indexes in two orders, and
  // probing the columns of two of them at once, give the same sequence.
  method IntersectInAnyOrder(p: PositionListIndex, q: PositionListIndex, s: PositionListIndex, tables: seq<seq<nat>>,
                             ghost r: Relation, x: Vertical, y: Vertical, z: Vertical)
    returns (left: PositionListIndex, right: PositionListIndex, probed: PositionListIndex)
    requires IsPliOf(p, r, x) && IsPliOf(q, r, y) && IsPliOf(s, r, z) && AreProbingTables(tables, r)
    requires x + y + z <= r.Columns()
    ensures left == right == probed && IsPliOf(left, r, x + y + z)
  {
    hide IsPliOf;
    var first := Intersect(p, q, r, x, y);
    left := Intersect(first, s, r, x + y, z);
    var last := Intersect(s, q, r, z, y);
    right := Intersect(last, p, r, z + y, x);
    probed := ProbeAll(p, y + z, tables, r, x);
    assert z + y + x == x + y + z == x + (y + z);
    PliUnique(left, right, r, x + y + z);
    PliUnique(left, probed, r, x + y + z);
  }

  // ----- the columns of a relation -----

  ghost predicate AreColumnPlis(columnData: seq<PositionListIndex>, r: Relation) {
    |columnData| == r.numColumns && forall c :: 0 <= c < |columnData| ==> IsPliOf(columnData[c], r, {c})
  }

  method CreateColumnData(r: Relation) returns (columnData: seq<PositionListIndex>)
    ensures AreColumnPlis(columnData, r)
  {
    columnData := [];
    while |columnData| < r.numColumns
      invariant |columnData| <= r.numColumns
      invariant forall c :: 0 <= c < |columnData| ==> IsPliOf(columnData[c], r, {c})
    {
      var c := |columnData|;
      var data := seq(|r.rows|, i requires 0 <= i < |r.rows| => r.rows[i][c]);
      var pli := CreateFor(data, r.nullEqNull, r, c);
      columnData := columnData + [pli];
    }
  }

  // ----- all pairs -----

  // All row pairs agree on no columns: GetNumTuplePairs is the nep of the empty column set.
  lemma NumTuplePairs(r: Relation)
    ensures Pairs(|r.rows|) == Nep(r, {})
  {
    var positions := AllRows(|r.rows|);
    PairsOfCount(positions);
    forall p: (nat, nat) ensures p in PairsOf(positions) <==> p in AgreeingPairs(r, {}) {
      assert p == (p.0, p.1);
      EveryPairAgrees(r, p.0, p.1);
    }
    assert PairsOf(positions) == AgreeingPairs(r, {});
  }

  function AllRows(n: nat): (rows: Cluster)
    ensures Ascending(rows) && |rows| == n && forall i: nat :: i in rows <==> i < n
  {
    if n == 0 then [] else
      var rows := AllRows(n - 1);
      assert forall p :: 0 <= p < |rows| ==> rows[p] in rows;
      rows + [n - 1]
  }

  lemma EveryPairAgrees(r: Relation, i: nat, j: nat)
    ensures (i, j) in AgreeingPairs(r, {}) <==> i < j < |r.rows|
  {
    if i < j < |r.rows| {
      assert Together(r, {}, i, j);
    }
  }

  // A column set is a key exactly when no two rows agree on it.
  lemma NepDecidesKey(r: Relation, x: Vertical)
    requires x <= r.Columns()
    ensures IsKey(r, x) <==> Nep(r, x) == 0
  {
    if Nep(r, x) == 0 {
      forall i: nat, j: nat | r.IsRow(i) && r.IsRow(j) && i != j ensures !r.Agree(x, i, j) {
        TogetherSymmetric(r, x, i, j);
        assert (i, j) !in AgreeingPairs(r, x) && (j, i) !in AgreeingPairs(r, x);
      }
    }
    if IsKey(r, x) {
      assert AgreeingPairs(r, x) == {};
    }
  }
}
