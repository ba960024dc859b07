// CTANE: the error of a conditional dependency, counted on the clusters of X and of X with A.
module CtaneErrors {
  import opened Relations

  type Cluster = seq<nat>

  ghost function RowsOf(c: Cluster): set<nat> {
    set row | row in c
  }

  ghost function AllRows(x: seq<Cluster>): set<nat> {
    set i, row | 0 <= i < |x| && row in x[i] :: row
  }

  // Clusters list their rows once, and no row is in two clusters.
  ghost predicate AreApart(x: seq<Cluster>) {
    && (forall i :: 0 <= i < |x| ==> NoDuplicates(x[i]))
    && forall i, j :: 0 <= i < j < |x| ==> RowsOf(x[i]) !! RowsOf(x[j])
  }

  // Every cluster of X with A has a row, and lies inside a cluster of X.
  ghost predicate RefinesClusters(xa: seq<Cluster>, x: seq<Cluster>) {
    forall k :: 0 <= k < |xa| ==> xa[k] != [] && exists i :: 0 <= i < |x| && RowsOf(xa[k]) <= RowsOf(x[i])
  }

  ghost predicate InsideOne(rows: set<nat>, xa: seq<Cluster>) {
    rows == {} || exists k :: 0 <= k < |xa| && rows <= RowsOf(xa[k])
  }

  // Without the removed rows every cluster of X lies inside a single cluster of X with A.
  ghost predicate Cleans(removed: set<nat>, x: seq<Cluster>, xa: seq<Cluster>) {
    forall i :: 0 <= i < |x| ==> InsideOne(RowsOf(x[i]) - removed, xa)
  }

  ghost predicate IsLeastRemoval(x: seq<Cluster>, xa: seq<Cluster>, error: int) {
    && (exists removed :: removed <= AllRows(x) && Cleans(removed, x, xa) && |removed| == error)
    && forall removed: set<nat> :: Cleans(removed, x, xa) ==> error <= |removed|
  }

  // The number of rows of the largest cluster of X with A inside a cluster of X; zero when there is none.
  ghost predicate IsLargestPart(c: Cluster, xa: seq<Cluster>, size: nat) {
    && (size == 0 || exists k :: 0 <= k < |xa| && RowsOf(xa[k]) <= RowsOf(c) && |xa[k]| == size)
    && forall k :: 0 <= k < |xa| && RowsOf(xa[k]) <= RowsOf(c) ==> |xa[k]| <= size
  }

  ghost predicate EndsWith(c: Cluster, row: nat) {
    c != [] && c[|c| - 1] == row
  }

  ghost predicate SomeEndsWith(xa: seq<Cluster>, row: nat) {
    exists k :: 0 <= k < |xa| && EndsWith(xa[k], row)
  }

  ghost predicate HasSize(partitionsSize: map<nat, nat>, c: Cluster) {
    c != [] && c[|c| - 1] in partitionsSize && partitionsSize[c[|c| - 1]] == |c|
  }

  ghost predicate AreSizes(partitionsSize: map<nat, nat>, xa: seq<Cluster>) {
    && (forall k :: 0 <= k < |xa| ==> HasSize(partitionsSize, xa[k]))
    && forall row :: row in partitionsSize ==> SomeEndsWith(xa, row)
  }

  // A cluster of X with A is known by its last row.
  method PartitionsSize(xa: seq<Cluster>, ghost x: seq<Cluster>) returns (partitionsSize: map<nat, nat>)
    requires AreApart(xa) && RefinesClusters(xa, x)
    ensures AreSizes(partitionsSize, xa)
  {
    partitionsSize := map[];
    var k := 0;
    while k < |xa|
      invariant 0 <= k <= |xa| && AreSizes(partitionsSize, xa[..k])
    {
      SizesStep(partitionsSize, xa, k, x);
      partitionsSize := partitionsSize[xa[k][|xa[k]| - 1] := |xa[k]|];
      k := k + 1;
    }
    assert xa[..|xa|] == xa;
  }

  lemma SizesStep(partitionsSize: map<nat, nat>, xa: seq<Cluster>, k: nat, x: seq<Cluster>)
    requires AreApart(xa) && RefinesClusters(xa, x) && k < |xa| && AreSizes(partitionsSize, xa[..k])
    ensures xa[k] != [] && AreSizes(partitionsSize[xa[k][|xa[k]| - 1] := |xa[k]|], xa[..k + 1])
  {
    hide SomeEndsWith, HasSize;
    var before, last := xa[..k], xa[k][|xa[k]| - 1];
    var sizes := partitionsSize[last := |xa[k]|];
    assert xa[..k + 1] == before + [xa[k]];
    forall j | 0 <= j < k ensures HasSize(sizes, xa[j]) {
      assert before[j] == xa[j];
      OtherLast(xa, j, k);
      SizeStays(partitionsSize, xa[j], last, |xa[k]|);
    }
    SizeSet(partitionsSize, xa[k]);
    forall row | row in sizes ensures SomeEndsWith(before + [xa[k]], row) {
      EndsMore(before, xa[k], row);
    }
  }

  lemma OtherLast(xa: seq<Cluster>, j: nat, k: nat)
    requires AreApart(xa) && j < k < |xa| && xa[j] != [] && xa[k] != []
    ensures xa[j][|xa[j]| - 1] != xa[k][|xa[k]| - 1]
  {
    assert xa[j][|xa[j]| - 1] in RowsOf(xa[j]) && xa[k][|xa[k]| - 1] in RowsOf(xa[k]);
  }

  lemma SizeStays(partitionsSize: map<nat, nat>, c: Cluster, row: nat, size: nat)
    requires HasSize(partitionsSize, c) && !EndsWith(c, row)
    ensures HasSize(partitionsSize[row := size], c)
  {
  }

  lemma SizeSet(partitionsSize: map<nat, nat>, c: Cluster)
    requires c != []
    ensures HasSize(partitionsSize[c[|c| - 1] := |c|], c)
  {
  }

  lemma EndsMore(xa: seq<Cluster>, c: Cluster, row: nat)
    ensures SomeEndsWith(xa, row) || EndsWith(c, row) ==> SomeEndsWith(xa + [c], row)
  {
    if k :| 0 <= k < |xa| && EndsWith(xa[k], row) {
      assert EndsWith((xa + [c])[k], row);
    }
    assert (xa + [c])[|xa|] == c;
  }

  // A cluster that has the last row of a refining cluster has all of it.
  lemma LastRowDecides(x: seq<Cluster>, xa: seq<Cluster>, i: nat, k: nat)
    requires AreApart(x) && RefinesClusters(xa, x) && i < |x| && k < |xa|
    ensures xa[k] != [] && (xa[k][|xa[k]| - 1] in x[i] <==> RowsOf(xa[k]) <= RowsOf(x[i]))
    ensures !(RowsOf(xa[k]) !! RowsOf(x[i])) ==> RowsOf(xa[k]) <= RowsOf(x[i])
  {
    var j :| 0 <= j < |x| && RowsOf(xa[k]) <= RowsOf(x[j]);
    assert xa[k][|xa[k]| - 1] in RowsOf(xa[k]);
    assert i != j ==> RowsOf(x[i]) !! RowsOf(x[j]);
  }

  method LargestPart(x: seq<Cluster>, i: nat, xa: seq<Cluster>, partitionsSize: map<nat, nat>) returns (count: nat, maxCount: nat)
    requires AreApart(x) && RefinesClusters(xa, x) && i < |x| && AreSizes(partitionsSize, xa)
    ensures count == |x[i]| && IsLargestPart(x[i], xa, maxCount)
  {
    hide AreSizes, AreApart, RefinesClusters;
    var cluster := x[i];
    count, maxCount := 0, 0;
    while count < |cluster|
      invariant 0 <= count <= |cluster|
      invariant maxCount == 0 || exists j :: 0 <= j < count && SizeAt(partitionsSize, cluster[j]) == maxCount
      invariant forall j :: 0 <= j < count ==> SizeAt(partitionsSize, cluster[j]) <= maxCount
    {
      var rowNumber := cluster[count];
      count := count + 1;
      if rowNumber in partitionsSize && partitionsSize[rowNumber] > maxCount {
        maxCount := partitionsSize[rowNumber];
        assert SizeAt(partitionsSize, cluster[count - 1]) == maxCount;
      }
    }
    forall k: nat | k < |xa| && RowsOf(xa[k]) <= RowsOf(cluster) ensures |xa[k]| <= maxCount {
      var j := PartFound(x, xa, i, k, partitionsSize);
    }
    if maxCount != 0 {
      ghost var j :| 0 <= j < |cluster| && SizeAt(partitionsSize, cluster[j]) == maxCount;
      ghost var k := PartOf(x, xa, i, partitionsSize, cluster[j]);
    }
  }

  ghost function SizeAt(m: map<nat, nat>, row: nat): nat {
    if row in m then m[row] else 0
  }

  lemma PartFound(x: seq<Cluster>, xa: seq<Cluster>, i: nat, k: nat, partitionsSize: map<nat, nat>) returns (j: nat)
    requires AreApart(x) && RefinesClusters(xa, x) && i < |x| && k < |xa| && AreSizes(partitionsSize, xa)
    requires RowsOf(xa[k]) <= RowsOf(x[i])
    ensures j < |x[i]| && SizeAt(partitionsSize, x[i][j]) == |xa[k]|
  {
    LastRowDecides(x, xa, i, k);
    assert HasSize(partitionsSize, xa[k]);
    j :| 0 <= j < |x[i]| && x[i][j] == xa[k][|xa[k]| - 1];
  }

  lemma PartOf(x: seq<Cluster>, xa: seq<Cluster>, i: nat, partitionsSize: map<nat, nat>, row: nat) returns (k: nat)
    requires AreApart(x) && RefinesClusters(xa, x) && i < |x| && AreSizes(partitionsSize, xa)
    requires row in x[i] && SizeAt(partitionsSize, row) != 0
    ensures k < |xa| && RowsOf(xa[k]) <= RowsOf(x[i]) && |xa[k]| == SizeAt(partitionsSize, row)
  {
    assert SomeEndsWith(xa, row);
    k :| 0 <= k < |xa| && EndsWith(xa[k], row);
    assert HasSize(partitionsSize, xa[k]);
    LastRowDecides(x, xa, i, k);
  }

  // The least number of rows to remove before every cluster of X lies inside a single cluster of X with A.
  method CalculatePartitionError(x: seq<Cluster>, xa: seq<Cluster>) returns (errorSum: int)
    requires AreApart(x) && AreApart(xa) && RefinesClusters(xa, x)
    ensures IsLeastRemoval(x, xa, errorSum)
  {
    hide AreApart, RefinesClusters, IsLeastRemoval, IsLargestPart, AreSizes;
    errorSum := 0;
    var partitionsSize := PartitionsSize(xa, x);
    NothingToRemove(xa);
    var i := 0;
    while i < |x|
      invariant 0 <= i <= |x| && IsLeastRemoval(x[..i], xa, errorSum)
    {
      var count, maxCount := LargestPart(x, i, xa, partitionsSize);
      OneMoreCluster(x, xa, i, errorSum, maxCount);
      errorSum := errorSum + count - maxCount;
      i := i + 1;
    }
    assert x[..|x|] == x;
  }

  lemma NothingToRemove(xa: seq<Cluster>)
    ensures IsLeastRemoval([], xa, 0)
  {
    var nothing: set<nat> := {};
    assert nothing <= AllRows([]) && Cleans(nothing, [], xa) && |nothing| == 0;
  }

  lemma {:induction false} SizeOfRows(c: Cluster)
    requires NoDuplicates(c)
    ensures |RowsOf(c)| == |c|
  {
    if c == [] {
      assert RowsOf(c) == {};
    } else {
      SizeOfRows(c[1..]);
      assert c == [c[0]] + c[1..];
      assert RowsOf(c) == {c[0]} + RowsOf(c[1..]);
    }
  }

  lemma OneMoreCluster(x: seq<Cluster>, xa: seq<Cluster>, i: nat, error: int, size: nat)
    requires AreApart(x) && AreApart(xa) && RefinesClusters(xa, x) && i < |x|
    requires IsLeastRemoval(x[..i], xa, error) && IsLargestPart(x[i], xa, size)
    ensures IsLeastRemoval(x[..i + 1], xa, error + |x[i]| - size)
  {
    hide AllRows, Cleans, IsLargestPart;
    var before := x[..i];
    assert x[..i + 1] == before + [x[i]];
    AllRowsMore(before, x[i]);
    ApartSoFar(x, i);
    forall removed: set<nat> | Cleans(removed, x[..i + 1], xa) ensures error + |x[i]| - size <= |removed| {
      MustRemove(x, xa, i, error, size, removed);
    }
    var removed :| removed <= AllRows(before) && Cleans(removed, before, xa) && |removed| == error;
    var added := CanRemove(x[i], xa, size);
    CleansMore(before, x[i], xa, removed, added);
    assert removed !! added && |removed + added| == |removed| + |added|;
  }

  lemma ApartSoFar(x: seq<Cluster>, i: nat)
    requires AreApart(x) && i < |x|
    ensures AllRows(x[..i]) !! RowsOf(x[i]) && NoDuplicates(x[i])
  {
  }

  lemma CleansMore(x: seq<Cluster>, c: Cluster, xa: seq<Cluster>, removed: set<nat>, added: set<nat>)
    requires AllRows(x) !! RowsOf(c) && removed <= AllRows(x) && added <= RowsOf(c)
    requires Cleans(removed, x, xa) && InsideOne(RowsOf(c) - added, xa)
    ensures Cleans(removed + added, x + [c], xa)
  {
    hide InsideOne;
    var more := x + [c];
    forall j | 0 <= j < |more| ensures InsideOne(RowsOf(more[j]) - (removed + added), xa) {
      if j < |x| {
        RowsAmongAll(x, j);
        assert RowsOf(more[j]) - (removed + added) == RowsOf(x[j]) - removed;
      } else {
        assert RowsOf(more[j]) - (removed + added) == RowsOf(c) - added;
      }
    }
  }

  lemma RowsAmongAll(x: seq<Cluster>, j: nat)
    requires j < |x|
    ensures RowsOf(x[j]) <= AllRows(x)
  {
  }

  lemma AllRowsMore(x: seq<Cluster>, c: Cluster)
    ensures AllRows(x + [c]) == AllRows(x) + RowsOf(c)
  {
    var more := x + [c];
    forall row ensures row in AllRows(more) <==> row in AllRows(x) + RowsOf(c) {
      if row in AllRows(x) {
        var j :| 0 <= j < |x| && row in x[j];
        assert row in more[j];
      }
      if row in c {
        assert row in more[|x|];
      }
    }
  }

  // Keeping the largest part of a cluster is enough.
  lemma CanRemove(c: Cluster, xa: seq<Cluster>, size: nat) returns (removed: set<nat>)
    requires NoDuplicates(c) && AreApart(xa) && IsLargestPart(c, xa, size)
    ensures removed <= RowsOf(c) && InsideOne(RowsOf(c) - removed, xa) && |removed| == |c| - size
  {
    SizeOfRows(c);
    if size == 0 {
      removed := RowsOf(c);
    } else {
      var k :| 0 <= k < |xa| && RowsOf(xa[k]) <= RowsOf(c) && |xa[k]| == size;
      SizeOfRows(xa[k]);
      removed := RowsOf(c) - RowsOf(xa[k]);
      assert RowsOf(c) - removed == RowsOf(xa[k]);
    }
  }

  lemma MustRemove(x: seq<Cluster>, xa: seq<Cluster>, i: nat, error: int, size: nat, removed: set<nat>)
    requires AreApart(x) && AreApart(xa) && RefinesClusters(xa, x) && i < |x|
    requires IsLeastRemoval(x[..i], xa, error) && IsLargestPart(x[i], xa, size) && Cleans(removed, x[..i + 1], xa)
    ensures error + |x[i]| - size <= |removed|
  {
    hide AllRows, InsideOne;
    var before, after := x[..i], x[..i + 1];
    var earlier, here := removed * AllRows(before), removed * RowsOf(x[i]);
    forall j | 0 <= j < i ensures InsideOne(RowsOf(before[j]) - earlier, xa) {
      RowsAmongAll(before, j);
      assert after[j] == before[j];
      assert RowsOf(before[j]) - earlier == RowsOf(after[j]) - removed;
    }
    assert Cleans(earlier, before, xa);
    assert after[i] == x[i];
    LeastHere(x, xa, i, size, removed);
    ApartSoFar(x, i);
    assert |earlier + here| == |earlier| + |here|;
    SubsetSize(earlier + here, removed);
  }

  lemma LeastHere(x: seq<Cluster>, xa: seq<Cluster>, i: nat, size: nat, removed: set<nat>)
    requires AreApart(x) && AreApart(xa) && RefinesClusters(xa, x) && i < |x| && IsLargestPart(x[i], xa, size)
    requires InsideOne(RowsOf(x[i]) - removed, xa)
    ensures |x[i]| - size <= |removed * RowsOf(x[i])|
  {
    var rows := RowsOf(x[i]);
    var kept := rows - removed;
    SizeOfRows(x[i]);
    assert rows == kept + removed * rows;
    if kept != {} {
      var k :| 0 <= k < |xa| && kept <= RowsOf(xa[k]);
      var row :| row in kept;
      assert row in RowsOf(xa[k]) && row in rows;
      LastRowDecides(x, xa, i, k);
      SizeOfRows(xa[k]);
      SubsetSize(kept, RowsOf(xa[k]));
    }
  }

  lemma SubsetSize(a: set<nat>, b: set<nat>)
    requires a <= b
    ensures |a| <= |b|
  {
    assert b == a + (b - a);
  }

  // No error means that every cluster of X lies inside a single cluster of X with A, and the other way round.
  lemma NoErrorMeansInside(x: seq<Cluster>, xa: seq<Cluster>, error: int)
    requires IsLeastRemoval(x, xa, error)
    ensures error == 0 <==> forall i :: 0 <= i < |x| ==> InsideOne(RowsOf(x[i]), xa)
  {
    hide AllRows, InsideOne;
    var nothing: set<nat> := {};
    assert forall i :: 0 <= i < |x| ==> RowsOf(x[i]) - nothing == RowsOf(x[i]);
    if error == 0 {
      var removed :| removed <= AllRows(x) && Cleans(removed, x, xa) && |removed| == error;
      assert removed == nothing;
    }
    if forall i :: 0 <= i < |x| ==> InsideOne(RowsOf(x[i]), xa) {
      assert Cleans(nothing, x, xa) && |nothing| == 0;
    }
  }
}
