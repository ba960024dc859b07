// Stripped partitions: what a position list index of a column set has to be, and what its counts mean.
module Partitions {
  import opened Relations

  type Cluster = seq<nat>

  ghost predicate Together(r: Relation, x: Vertical, i: nat, j: nat) {
    r.IsRow(i) && r.IsRow(j) && r.Agree(x, i, j)
  }

  ghost predicate Ascending(c: Cluster) {
    forall p, q :: 0 <= p < q < |c| ==> c[p] < c[q]
  }

  ghost predicate IsCluster(c: Cluster, r: Relation, x: Vertical) {
    && |c| >= 2 && Ascending(c)
    && (forall i, j :: i in c ==> r.IsRow(i) && (j in c <==> Together(r, x, i, j)))
  }

  // The clusters are the equivalence classes of at least two rows, without their order.
  ghost predicate Groups(index: seq<Cluster>, r: Relation, x: Vertical) {
    && (forall c :: c in index ==> IsCluster(c, r, x))
    && (forall i: nat, j: nat :: i != j && Together(r, x, i, j) ==> exists c :: c in index && i in c)
    && NoDuplicates(index)
  }

  ghost predicate SortedByFirst(index: seq<Cluster>) {
    && (forall k :: 0 <= k < |index| ==> index[k] != [])
    && forall k, l :: 0 <= k < l < |index| ==> index[k][0] < index[l][0]
  }

  // The canonical stripped partition: sorted classes, sorted by their first row.
  ghost predicate IsPartition(index: seq<Cluster>, r: Relation, x: Vertical) {
    Groups(index, r, x) && SortedByFirst(index)
  }

  lemma TogetherTransitive(r: Relation, x: Vertical, i: nat, j: nat, k: nat)
    requires Together(r, x, i, j)
    ensures Together(r, x, j, i)
    ensures Together(r, x, j, k) <==> Together(r, x, i, k)
  {
    AgreeTransitive(r, x, i, j, j);
    if r.IsRow(k) {
      AgreeTransitive(r, x, i, j, k);
      AgreeTransitive(r, x, j, i, k);
    }
  }

  lemma TogetherUnion(r: Relation, x: Vertical, y: Vertical, i: nat, j: nat)
    ensures Together(r, x + y, i, j) <==> Together(r, x, i, j) && Together(r, y, i, j)
  {
  }

  // Two clusters with a common row are the same sequence.
  lemma ClustersOverlap(c: Cluster, d: Cluster, r: Relation, x: Vertical, i: nat)
    requires IsCluster(c, r, x) && IsCluster(d, r, x) && i in c && i in d
    ensures c == d
  {
    assert forall j :: j in c <==> j in d;
    AscendingUnique(c, d);
  }

  lemma {:induction false} AscendingUnique(c: Cluster, d: Cluster)
    requires Ascending(c) && Ascending(d) && forall j :: j in c <==> j in d
    ensures c == d
  {
    assert Elements(c) == Elements(d);
    AscendingDistinct(c);
    AscendingDistinct(d);
    if c != [] {
      assert c[0] in d && d[0] in c;
      assert c[0] == d[0];
      forall j ensures j in c[1..] <==> j in d[1..] {
        assert j in c <==> j == c[0] || j in c[1..];
        assert j in d <==> j == d[0] || j in d[1..];
      }
      AscendingUnique(c[1..], d[1..]);
      assert c == [c[0]] + c[1..] && d == [d[0]] + d[1..];
    }
  }

  ghost function Elements(c: Cluster): set<nat> {
    set i | i in c
  }

  lemma {:induction false} AscendingDistinct(c: Cluster)
    requires Ascending(c)
    ensures |Elements(c)| == |c|
  {
    if c != [] {
      var init := c[..|c| - 1];
      AscendingDistinct(init);
      assert Elements(c) == Elements(init) + {c[|c| - 1]};
    }
  }

  lemma {:induction false} SortedByFirstUnique(p: seq<Cluster>, q: seq<Cluster>)
    requires SortedByFirst(p) && SortedByFirst(q) && forall c :: c in p <==> c in q
    ensures p == q
  {
    HasMember(p);
    HasMember(q);
    if p != [] && q != [] {
      assert p[0] in q && q[0] in p;
      assert p[0][0] == q[0][0];
      assert p[0] == q[0];
      forall c ensures c in p[1..] <==> c in q[1..] {
        assert c in p <==> c == p[0] || c in p[1..];
        assert c in q <==> c == q[0] || c in q[1..];
      }
      SortedByFirstUnique(p[1..], q[1..]);
      assert p == [p[0]] + p[1..] && q == [q[0]] + q[1..];
    }
  }

  // A column set has one stripped partition, so equal column sets give equal indexes.
  lemma PartitionUnique(p: seq<Cluster>, q: seq<Cluster>, r: Relation, x: Vertical)
    requires IsPartition(p, r, x) && IsPartition(q, r, x)
    ensures p == q
  {
    PartitionContains(p, q, r, x);
    PartitionContains(q, p, r, x);
    SortedByFirstUnique(p, q);
  }

  lemma PartitionContains(p: seq<Cluster>, q: seq<Cluster>, r: Relation, x: Vertical)
    requires Groups(p, r, x) && Groups(q, r, x)
    ensures forall c :: c in p ==> c in q
  {
    forall c | c in p ensures c in q {
      assert c[0] in c && c[1] in c && c[0] < c[1];
      assert Together(r, x, c[0], c[1]);
      var d :| d in q && c[0] in d;
      ClustersOverlap(c, d, r, x, c[0]);
    }
  }

  // ----- counting -----

  function Sizes(index: seq<Cluster>): nat {
    if index == [] then 0 else |index[0]| + Sizes(index[1..])
  }

  function Pairs(n: nat): nat {
    n * (n - 1) / 2
  }

  function Neps(index: seq<Cluster>): nat {
    if index == [] then 0 else Pairs(|index[0]|) + Neps(index[1..])
  }

  lemma PairsStep(n: nat)
    ensures Pairs(n + 1) == Pairs(n) + n
  {
    assert (n + 1) * n == n * (n - 1) + 2 * n;
  }

  ghost function PairsWith(c: Cluster, last: nat): (pairs: set<(nat, nat)>)
    ensures forall i, j :: (i, j) in pairs <==> i in c && j == last
  {
    if c == [] then {} else PairsWith(c[..|c| - 1], last) + {(c[|c| - 1], last)}
  }

  // The pairs of an ascending cluster, each with its smaller row first.
  ghost function PairsOf(c: Cluster): (pairs: set<(nat, nat)>)
    requires Ascending(c)
    ensures forall i, j :: (i, j) in pairs <==> i in c && j in c && i < j
  {
    if c == [] then {} else
      assert c == c[..|c| - 1] + [c[|c| - 1]];
      PairsOf(c[..|c| - 1]) + PairsWith(c[..|c| - 1], c[|c| - 1])
  }

  ghost function PairsIn(index: seq<Cluster>): set<(nat, nat)>
    requires forall c :: c in index ==> Ascending(c)
  {
    if index == [] then {} else PairsOf(index[0]) + PairsIn(index[1..])
  }

  // The row pairs that agree on x, each once.
  ghost function AgreeingPairs(r: Relation, x: Vertical): set<(nat, nat)> {
    set i, j | i in UpTo(|r.rows|) && j in UpTo(|r.rows|) && i < j && Together(r, x, i, j) :: (i, j)
  }

  ghost function Nep(r: Relation, x: Vertical): nat {
    |AgreeingPairs(r, x)|
  }

  lemma {:induction false} PairsWithCount(c: Cluster, last: nat)
    requires Ascending(c)
    ensures |PairsWith(c, last)| == |c|
  {
    if c != [] {
      PairsWithCount(c[..|c| - 1], last);
      assert c[|c| - 1] !in c[..|c| - 1];
    }
  }

  lemma {:induction false} PairsOfCount(c: Cluster)
    requires Ascending(c)
    ensures |PairsOf(c)| == Pairs(|c|)
  {
    if c != [] {
      var init, last := c[..|c| - 1], c[|c| - 1];
      PairsOfCount(init);
      PairsStep(|init|);
      PairsWithCount(init, last);
      assert last !in init;
      forall p | p in PairsOf(init) ensures p !in PairsWith(init, last) {
        assert p == (p.0, p.1);
      }
    }
  }

  ghost predicate DisjointClusters(index: seq<Cluster>) {
    && (forall c :: c in index ==> Ascending(c))
    && forall k, l, i :: 0 <= k < l < |index| && i in index[k] ==> i !in index[l]
  }

  lemma GroupsAreDisjoint(index: seq<Cluster>, r: Relation, x: Vertical)
    requires Groups(index, r, x)
    ensures DisjointClusters(index)
  {
    forall k, l, i | 0 <= k < l < |index| && i in index[k] ensures i !in index[l] {
      if i in index[l] {
        ClustersOverlap(index[k], index[l], r, x, i);
      }
    }
  }

  lemma {:induction false} PairsInCount(index: seq<Cluster>)
    requires DisjointClusters(index)
    ensures |PairsIn(index)| == Neps(index)
    ensures forall i, j :: (i, j) in PairsIn(index) <==> i < j && exists k :: 0 <= k < |index| && i in index[k] && j in index[k]
  {
    if index != [] {
      PairsInCount(index[1..]);
      PairsOfCount(index[0]);
      forall p | p in PairsOf(index[0]) ensures p !in PairsIn(index[1..]) {
        assert p == (p.0, p.1);
      }
      forall i, j | i < j && exists k :: 0 <= k < |index| && i in index[k] && j in index[k]
        ensures (i, j) in PairsIn(index)
      {
        var k :| 0 <= k < |index| && i in index[k] && j in index[k];
        if k > 0 {
          assert index[k] == index[1..][k - 1];
        }
      }
    }
  }

  // The nep of the clusters is the number of row pairs that agree on x.
  lemma NepCountsPairs(index: seq<Cluster>, r: Relation, x: Vertical)
    requires Groups(index, r, x)
    ensures Neps(index) == Nep(r, x)
  {
    GroupsAreDisjoint(index, r, x);
    PairsInCount(index);
    hide Groups, AgreeingPairs;
    forall p: (nat, nat) ensures p in PairsIn(index) <==> p in AgreeingPairs(r, x) {
      assert p == (p.0, p.1);
      InPairsMeansAgreeing(index, r, x, p.0, p.1);
    }
    assert PairsIn(index) == AgreeingPairs(r, x);
  }

  lemma InPairsMeansAgreeing(index: seq<Cluster>, r: Relation, x: Vertical, i: nat, j: nat)
    requires Groups(index, r, x)
    ensures (i < j && exists k :: 0 <= k < |index| && i in index[k] && j in index[k]) <==> (i, j) in AgreeingPairs(r, x)
  {
    if k :| 0 <= k < |index| && i in index[k] && j in index[k] {
      assert IsCluster(index[k], r, x);
    }
    if (i, j) in AgreeingPairs(r, x) {
      var c :| c in index && i in c;
      assert IsCluster(c, r, x) && j in c;
      var k :| 0 <= k < |index| && index[k] == c;
    }
  }

  lemma {:induction false} SubsetSize<T>(s: set<T>, t: set<T>)
    requires s <= t
    ensures |s| <= |t|
    ensures |s| == |t| ==> s == t
  {
    assert |t| == |s| + |t - s| by {
      assert t == s + (t - s);
    }
    if |s| == |t| {
      assert t - s == {};
    }
  }

  // X -> A holds exactly when adding A loses no agreeing pair.
  lemma NepDecidesFd(r: Relation, x: Vertical, a: nat)
    requires a in r.Columns()
    ensures Nep(r, x + {a}) <= Nep(r, x)
    ensures Holds(r, x, a) <==> Nep(r, x) == Nep(r, x + {a})
  {
    var coarse, fine := AgreeingPairs(r, x), AgreeingPairs(r, x + {a});
    forall i, j | (i, j) in fine ensures (i, j) in coarse {
      TogetherUnion(r, x, {a}, i, j);
    }
    SubsetSize(fine, coarse);
    if Holds(r, x, a) {
      forall i, j | (i, j) in coarse ensures (i, j) in fine {
        assert a in r.AgreeSet(i, j);
      }
      assert coarse == fine;
    }
    if coarse == fine {
      forall i: nat, j: nat | r.IsRow(i) && r.IsRow(j) && r.Agree(x, i, j) ensures a in r.AgreeSet(i, j) {
        TogetherTransitive(r, x, i, j, i);
        if i < j {
          assert (i, j) in coarse;
        } else if j < i {
          assert (j, i) in coarse;
          TogetherTransitive(r, {a}, j, i, j);
        }
      }
    }
  }

  // ----- counting classes -----

  // The first row of each class of rows that agree on x, singletons included.
  ghost function Leaders(r: Relation, x: Vertical): set<nat> {
    set i | i in UpTo(|r.rows|) && IsLeader(r, x, i)
  }

  ghost predicate IsLeader(r: Relation, x: Vertical, i: nat) {
    forall j: nat :: j < i ==> !Together(r, x, j, i)
  }

  ghost function ClassCount(r: Relation, x: Vertical): nat {
    |Leaders(r, x)|
  }

  ghost function RowsIn(index: seq<Cluster>): (rows: set<nat>)
    ensures forall i :: i in rows <==> exists c :: c in index && i in c
  {
    if index == [] then {} else
      assert forall c :: c in index <==> c == index[0] || c in index[1..];
      Elements(index[0]) + RowsIn(index[1..])
  }

  ghost function FirstsIn(index: seq<Cluster>): (firsts: set<nat>)
    ensures forall i :: i in firsts <==> exists c :: c in index && IsFirst(c, i)
  {
    if index == [] then {} else
      assert forall c :: c in index <==> c == index[0] || c in index[1..];
      FirstOf(index[0]) + FirstsIn(index[1..])
  }

  ghost function FirstOf(c: Cluster): (first: set<nat>)
    ensures forall i :: i in first <==> IsFirst(c, i)
  {
    if c == [] then {} else {c[0]}
  }

  ghost predicate IsFirst(c: Cluster, i: nat) {
    c != [] && i == c[0]
  }

  lemma {:induction false} RowsInCount(index: seq<Cluster>)
    requires DisjointClusters(index)
    ensures |RowsIn(index)| == Sizes(index)
  {
    if index != [] {
      RowsInCount(index[1..]);
      AscendingDistinct(index[0]);
      forall i | i in RowsIn(index[1..]) ensures i !in Elements(index[0]) {
        var c :| c in index[1..] && i in c;
        var k :| 0 <= k < |index[1..]| && index[1..][k] == c;
        assert c == index[k + 1];
      }
    }
  }

  lemma {:induction false} FirstsInCount(index: seq<Cluster>)
    requires DisjointClusters(index)
    requires forall k :: 0 <= k < |index| ==> index[k] != []
    ensures |FirstsIn(index)| == |index|
  {
    if index != [] {
      FirstsInCount(index[1..]);
      forall i | i in FirstsIn(index[1..]) ensures i != index[0][0] {
        var c :| c in index[1..] && IsFirst(c, i);
        var k :| 0 <= k < |index[1..]| && index[1..][k] == c;
        assert c == index[k + 1] && i in c;
      }
    }
  }

  // GetNumCluster counts the classes of rows, singletons included.
  // The rows that agree with another row on x.
  ghost function RowsNotAlone(r: Relation, x: Vertical): set<nat> {
    set i | i in UpTo(|r.rows|) && exists j: nat :: j != i && Together(r, x, i, j)
  }

  lemma SizesCountRows(index: seq<Cluster>, r: Relation, x: Vertical)
    requires Groups(index, r, x)
    ensures Sizes(index) == |RowsNotAlone(r, x)|
  {
    hide DisjointClusters, Together;
    GroupsAreDisjoint(index, r, x);
    RowsInCount(index);
    forall i ensures i in RowsIn(index) <==> i in RowsNotAlone(r, x) {
      NotAloneInCluster(index, r, x, i);
    }
    assert RowsIn(index) == RowsNotAlone(r, x);
  }

  lemma NotAloneInCluster(index: seq<Cluster>, r: Relation, x: Vertical, i: nat)
    requires Groups(index, r, x)
    ensures (exists c :: c in index && i in c) <==> i in RowsNotAlone(r, x)
  {
    if c :| c in index && i in c {
      assert IsCluster(c, r, x);
      var j := if c[0] == i then c[1] else c[0];
      assert j in c && Together(r, x, i, j);
    }
    if i in RowsNotAlone(r, x) {
      var j: nat :| j != i && Together(r, x, i, j);
    }
  }

  lemma ClassCountFormula(index: seq<Cluster>, r: Relation, x: Vertical)
    requires Groups(index, r, x)
    ensures |index| + |r.rows| - Sizes(index) == ClassCount(r, x)
  {
    hide *;
    assert DisjointClusters(index) by {
      GroupsAreDisjoint(index, r, x);
    }
    assert |RowsIn(index)| == Sizes(index) by {
      RowsInCount(index);
    }
    assert |FirstsIn(index)| == |index| by {
      GroupsNonEmpty(index, r, x);
      FirstsInCount(index);
    }
    RowsAreRows(index, r, x);
    LeadersAreFirsts(index, r, x);
    CountRemaining(|r.rows|, RowsIn(index), FirstsIn(index));
    ClassCountIsLeaders(r, x);
  }

  lemma ClassCountIsLeaders(r: Relation, x: Vertical)
    ensures ClassCount(r, x) == |Leaders(r, x)|
  {
  }

  lemma CountRemaining(n: nat, rows: set<nat>, firsts: set<nat>)
    requires firsts <= rows <= UpTo(n)
    ensures |firsts + (UpTo(n) - rows)| == |firsts| + n - |rows|
  {
    assert UpTo(n) == rows + (UpTo(n) - rows);
  }

  lemma RowsAreRows(index: seq<Cluster>, r: Relation, x: Vertical)
    requires Groups(index, r, x)
    ensures FirstsIn(index) <= RowsIn(index) <= UpTo(|r.rows|)
  {
    hide Groups;
    forall i | i in RowsIn(index) ensures i < |r.rows| {
      RowIsRow(index, r, x, i);
    }
    forall c, i | c in index && IsFirst(c, i) ensures i in c {
    }
  }

  lemma RowIsRow(index: seq<Cluster>, r: Relation, x: Vertical, i: nat)
    requires Groups(index, r, x) && exists c :: c in index && i in c
    ensures i < |r.rows|
  {
    var c :| c in index && i in c;
    assert IsCluster(c, r, x);
  }

  lemma LeadersAreFirsts(index: seq<Cluster>, r: Relation, x: Vertical)
    requires Groups(index, r, x)
    ensures Leaders(r, x) == FirstsIn(index) + (UpTo(|r.rows|) - RowsIn(index))
  {
    RowsAreRows(index, r, x);
    forall i: nat | i < |r.rows| ensures i in Leaders(r, x) <==> i in FirstsIn(index) || i !in RowsIn(index) {
      LeaderMeansFirst(index, r, x, i);
    }
  }

  lemma GroupsNonEmpty(index: seq<Cluster>, r: Relation, x: Vertical)
    requires Groups(index, r, x)
    ensures forall k :: 0 <= k < |index| ==> |index[k]| >= 2
  {
    forall k | 0 <= k < |index| ensures |index[k]| >= 2 {
      assert IsCluster(index[k], r, x);
    }
  }

  lemma LeaderMeansFirst(index: seq<Cluster>, r: Relation, x: Vertical, i: nat)
    requires Groups(index, r, x) && i < |r.rows|
    ensures IsLeader(r, x, i) <==>
      (exists c :: c in index && IsFirst(c, i)) || !exists c :: c in index && i in c
  {
    if c :| c in index && i in c {
      assert IsCluster(c, r, x);
      forall j: nat | Together(r, x, j, i) ensures c[0] <= j {
        TogetherTransitive(r, x, j, i, j);
        assert j in c;
      }
      assert c[0] in c;
      TogetherTransitive(r, x, i, c[0], i);
      if d :| d in index && IsFirst(d, i) {
        assert i in d;
        ClustersOverlap(c, d, r, x, i);
      }
    } else {
      forall j: nat | j < i ensures !Together(r, x, j, i) {
        TogetherSymmetric(r, x, i, j);
      }
    }
  }

  lemma TogetherSymmetric(r: Relation, x: Vertical, i: nat, j: nat)
    ensures Together(r, x, i, j) <==> Together(r, x, j, i)
  {
    if Together(r, x, i, j) {
      TogetherTransitive(r, x, i, j, i);
    }
    if Together(r, x, j, i) {
      TogetherTransitive(r, x, j, i, j);
    }
  }

  // The leader of the class of a row.
  lemma {:induction false} LeaderOf(r: Relation, x: Vertical, i: nat, bound: nat) returns (p: nat)
    requires bound <= i && r.IsRow(i) && x <= r.Columns()
    requires forall j: nat :: j < bound ==> !Together(r, x, j, i)
    ensures p in Leaders(r, x) && Together(r, x, p, i)
    decreases i - bound
  {
    if bound == i || Together(r, x, bound, i) {
      p := bound;
      assert Together(r, x, i, i);
      forall j: nat | j < p ensures !Together(r, x, j, p) {
        if Together(r, x, j, p) {
          TogetherTransitive(r, x, p, j, i);
        }
      }
    } else {
      p := LeaderOf(r, x, i, bound + 1);
    }
  }

  lemma LeadersUnique(r: Relation, x: Vertical, p: nat, q: nat)
    requires p in Leaders(r, x) && q in Leaders(r, x) && Together(r, x, p, q)
    ensures p == q
  {
    TogetherTransitive(r, x, p, q, p);
  }

  lemma OneClassOfNothing(r: Relation)
    requires |r.rows| > 0
    ensures ClassCount(r, {}) == 1
  {
    forall i: nat | r.IsRow(i) ensures IsLeader(r, {}, i) <==> i == 0 {
      assert Together(r, {}, 0, i);
    }
    assert Leaders(r, {}) == {0};
  }

  // x determines y exactly when adding y splits no class.
  lemma ClassCountDecides(r: Relation, x: Vertical, y: Vertical)
    requires x <= y <= r.Columns()
    ensures ClassCount(r, x) <= ClassCount(r, y)
    ensures (forall a :: a in y ==> Holds(r, x, a)) <==> ClassCount(r, x) == ClassCount(r, y)
  {
    var coarse, fine := Leaders(r, x), Leaders(r, y);
    forall i | i in coarse ensures i in fine {
      forall j: nat | j < i ensures !Together(r, y, j, i) {
        assert !Together(r, x, j, i);
      }
    }
    SubsetSize(coarse, fine);
    if coarse == fine {
      forall a, i: nat, j: nat | a in y && r.IsRow(i) && r.IsRow(j) && r.Agree(x, i, j)
        ensures a in r.AgreeSet(i, j)
      {
        SameLeader(r, x, y, i, j);
      }
    }
    if forall a :: a in y ==> Holds(r, x, a) {
      forall i: nat, j: nat | Together(r, x, i, j) ensures Together(r, y, i, j) {
        assert forall a :: a in y ==> a in r.AgreeSet(i, j);
      }
      assert coarse == fine;
    }
  }

  lemma SameLeader(r: Relation, x: Vertical, y: Vertical, i: nat, j: nat)
    requires x <= y <= r.Columns() && Leaders(r, x) == Leaders(r, y) && Together(r, x, i, j)
    ensures Together(r, y, i, j)
  {
    var p := LeaderOf(r, y, i, 0);
    var q := LeaderOf(r, y, j, 0);
    assert Together(r, x, p, i) && Together(r, x, q, j);
    TogetherTransitive(r, x, p, i, j);
    TogetherTransitive(r, x, q, j, q);
    TogetherTransitive(r, x, p, j, q);
    TogetherTransitive(r, x, j, p, q);
    LeadersUnique(r, x, p, q);
    TogetherTransitive(r, y, p, i, j);
    TogetherTransitive(r, y, i, p, j);
  }
}
