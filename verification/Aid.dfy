// AID: samples agree sets until they stop growing, and inverts the sample column by column.
module AidEngine {
  import opened Relations
  import opened FdLists
  import opened Bits
  import opened Transversals
  import opened Corrections
  import opened Partitions
  import opened SearchTreeNodes
  import opened SearchTrees
  import opened AidTheory
  import opened AidSampling

  // ----- clusters of equal values -----

  // The clusters of a column hold its first rows by value, and the indices are the rows' places in them.
  ghost predicate AreClusters(columnValues: map<int, Cluster>, indices: seq<nat>, rows: seq<seq<int>>, attr: nat)
    requires forall t :: 0 <= t < |rows| ==> attr < |rows[t]|
  {
    && |indices| <= |rows|
    && (forall v, p, q :: v in columnValues && 0 <= p < q < |columnValues[v]| ==> columnValues[v][p] < columnValues[v][q])
    && (forall v, p :: v in columnValues && 0 <= p < |columnValues[v]| ==>
          columnValues[v][p] < |indices| && rows[columnValues[v][p]][attr] == v)
    && (forall t :: 0 <= t < |indices| ==>
          && rows[t][attr] in columnValues
          && indices[t] < |columnValues[rows[t][attr]]| && columnValues[rows[t][attr]][indices[t]] == t)
  }

  function GenerateSecondClusterIndex(indexInCluster: nat, iterationNum: nat): (other: nat)
    requires indexInCluster > 0
    ensures other < indexInCluster
  {
    iterationNum * PRIME % SIZE_LIMIT % indexInCluster
  }

  // ----- the moving average of the growth ratios -----

  // Before round index the ratios are those of the last ten rounds, each at the place of its round, and sum is their sum.
  ghost predicate IsWindow(r: Relation, prevRatios: seq<real>, sum: real, index: nat) {
    && |prevRatios| == WINDOW_SIZE && sum == GrowthSum(r, index - 1, WINDOW_SIZE)
    && forall j: int :: index - WINDOW_SIZE <= j < index ==> prevRatios[j % WINDOW_SIZE] == Growth(r, j)
  }

  lemma WindowStart(r: Relation, prevRatios: seq<real>)
    requires |prevRatios| == WINDOW_SIZE && forall i :: 0 <= i < WINDOW_SIZE ==> prevRatios[i] == 1.0
    ensures IsWindow(r, prevRatios, WINDOW_SIZE as real, 1)
  {
    SumBeforeStart(r, 0, WINDOW_SIZE);
  }

  lemma WindowStep(r: Relation, prevRatios: seq<real>, sum: real, index: nat)
    requires IsWindow(r, prevRatios, sum, index)
    ensures var place, ratio := index % WINDOW_SIZE, Growth(r, index);
      IsWindow(r, prevRatios[place := ratio], sum - prevRatios[place] + ratio, index + 1)
  {
    hide Growth, GrowthSum;
    WindowMoves(r, index);
    SamePlace(index);
    forall j: int | index + 1 - WINDOW_SIZE <= j < index + 1
      ensures prevRatios[index % WINDOW_SIZE := Growth(r, index)][j % WINDOW_SIZE] == Growth(r, j)
    {
      if j < index {
        DifferentPlaces(j, index);
      }
    }
  }

  lemma SamePlace(index: int)
    ensures (index - WINDOW_SIZE) % WINDOW_SIZE == index % WINDOW_SIZE
  {
  }

  lemma DifferentPlaces(j: int, index: int)
    requires j < index < j + WINDOW_SIZE
    ensures j % WINDOW_SIZE != index % WINDOW_SIZE
  {
    assert index == WINDOW_SIZE * (index / WINDOW_SIZE) + index % WINDOW_SIZE;
    assert j == WINDOW_SIZE * (j / WINDOW_SIZE) + j % WINDOW_SIZE;
  }

  class Aid {
    const relation: Relation
    var clusters: seq<map<int, Cluster>>
    var indicesInClusters: seq<seq<nat>>
    var negCover: set<Vertical>
    var prevRatios: seq<real>
    var sum: real
    var constantColumns: Vertical
    var fdCollection: seq<Fd>

    // Tuples are compared by value, so nulls are equal to each other.
    constructor (relation: Relation)
      requires relation.nullEqNull
      ensures this.relation == relation && negCover == {} && fdCollection == [] && constantColumns == {}
      ensures IsWindow(relation, prevRatios, sum, 1) && clusters == []
    {
      this.relation := relation;
      clusters, indicesInClusters, negCover, constantColumns, fdCollection := [], [], {}, {}, [];
      prevRatios, sum := seq(WINDOW_SIZE, _ => 1.0), WINDOW_SIZE as real;
      new;
      WindowStart(relation, prevRatios);
    }

    // ----- building clusters -----

    method BuildClustersOf(attr: nat) returns (columnValues: map<int, Cluster>, indices: seq<nat>, isConstant: bool)
      requires attr < relation.numColumns && |relation.rows| > 0
      ensures AreClusters(columnValues, indices, relation.rows, attr) && |indices| == |relation.rows|
      ensures isConstant <==> forall t :: 0 <= t < |relation.rows| ==> relation.rows[t][attr] == relation.rows[0][attr]
    {
      hide AreClusters;
      columnValues, indices, isConstant := map[], [], true;
      var firstValue := relation.rows[0][attr];
      NoClusters(relation.rows, attr);
      var tupleNum := 0;
      while tupleNum < |relation.rows|
        invariant 0 <= tupleNum <= |relation.rows| && |indices| == tupleNum
        invariant AreClusters(columnValues, indices, relation.rows, attr)
        invariant isConstant <==> forall t :: 0 <= t < tupleNum ==> relation.rows[t][attr] == firstValue
      {
        var entryValue := relation.rows[tupleNum][attr];
        if entryValue != firstValue {
          isConstant := false;
        }
        MoreClusters(columnValues, indices, relation.rows, attr);
        var cluster := (if entryValue in columnValues then columnValues[entryValue] else []) + [tupleNum];
        columnValues := columnValues[entryValue := cluster];
        indices := indices + [|cluster| - 1];
        tupleNum := tupleNum + 1;
      }
    }

    ghost predicate HasClusters()
      reads `clusters, `indicesInClusters
    {
      && |clusters| == |indicesInClusters| == relation.numColumns
      && forall attr :: 0 <= attr < relation.numColumns ==>
           && AreClusters(clusters[attr], indicesInClusters[attr], relation.rows, attr)
           && |indicesInClusters[attr]| == |relation.rows|
    }

    method BuildClusters()
      requires constantColumns == {} && relation.nullEqNull && clusters == []
      modifies this`clusters, this`indicesInClusters, this`constantColumns
      ensures if |relation.rows| > 0 then HasClusters() else clusters == []
      ensures constantColumns == Constants(relation)
    {
      hide AreClusters;
      if |relation.rows| == 0 {
        return;
      }
      clusters, indicesInClusters := [], [];
      var attrNum := 0;
      while attrNum < relation.numColumns
        invariant attrNum <= relation.numColumns && |clusters| == |indicesInClusters| == attrNum
        invariant forall attr :: 0 <= attr < attrNum ==>
          && AreClusters(clusters[attr], indicesInClusters[attr], relation.rows, attr)
          && |indicesInClusters[attr]| == |relation.rows|
        invariant constantColumns == set a | a in Constants(relation) && a < attrNum
      {
        var columnValues, indices, isConstant := BuildClustersOf(attrNum);
        ConstantByValues(relation, attrNum);
        clusters := clusters + [columnValues];
        indicesInClusters := indicesInClusters + [indices];
        if isConstant {
          constantColumns := constantColumns + {attrNum};
        }
        attrNum := attrNum + 1;
      }
    }

    // ----- sampling agree sets -----

    method BuildAgreeSet(t1: nat, t2: nat) returns (equalAttr: Vertical)
      requires relation.IsRow(t1) && relation.IsRow(t2) && relation.nullEqNull
      ensures equalAttr == relation.AgreeSet(t1, t2)
    {
      equalAttr := {};
      var attrNum := 0;
      while attrNum < relation.numColumns
        invariant attrNum <= relation.numColumns
        invariant equalAttr == set c | c in relation.AgreeSet(t1, t2) && c < attrNum
      {
        if relation.rows[t1][attrNum] == relation.rows[t2][attrNum] {
          equalAttr := equalAttr + {attrNum};
        }
        attrNum := attrNum + 1;
      }
    }

    // Compares a tuple with one earlier tuple of each of its clusters in which it has one for this round.
    method HandleTuple(tupleNum: nat, iterationNum: nat)
      requires HasClusters() && tupleNum < |relation.rows| && iterationNum > 0 && relation.nullEqNull
      modifies this`negCover
      ensures negCover == old(negCover) + SampledOf(relation, tupleNum, iterationNum)
    {
      hide AreClusters, IsPartner, Place, SampledUpTo;
      NoneSampledYet(relation, tupleNum, iterationNum);
      var attrNum := 0;
      while attrNum < relation.numColumns
        invariant attrNum <= relation.numColumns
        invariant negCover == old(negCover) + SampledUpTo(relation, tupleNum, iterationNum, attrNum)
      {
        TupleInCluster(clusters[attrNum], indicesInClusters[attrNum], relation, attrNum, tupleNum);
        var value := relation.rows[tupleNum][attrNum];
        var cluster := clusters[attrNum][value];
        var indexInCluster := indicesInClusters[attrNum][tupleNum];
        if iterationNum <= indexInCluster {
          var anotherIndexInCluster := GenerateSecondClusterIndex(indexInCluster, iterationNum);
          var anotherTupleNum := cluster[anotherIndexInCluster];
          var tuplesAgreeSet := BuildAgreeSet(tupleNum, anotherTupleNum);
          PartnerInCluster(clusters[attrNum], indicesInClusters[attrNum], relation, attrNum, tupleNum, iterationNum);
          PartnerSampled(relation, tupleNum, iterationNum, attrNum, anotherTupleNum);
          negCover := negCover + {tuplesAgreeSet};
        } else {
          NoPartnerSampled(relation, tupleNum, iterationNum, attrNum);
        }
        attrNum := attrNum + 1;
      }
    }

    // Moves the window on and tells whether its average has become small.
    method IsNegativeCoverGrowthSmall(iterationNum: nat, currRatio: real) returns (small: bool)
      requires IsWindow(relation, prevRatios, sum, iterationNum) && currRatio == Growth(relation, iterationNum)
      modifies this`sum, this`prevRatios
      ensures IsWindow(relation, prevRatios, sum, iterationNum + 1)
      ensures prevRatios == old(prevRatios)[iterationNum % WINDOW_SIZE := currRatio]
      ensures small <==> IsSmall(relation, iterationNum)
    {
      hide Growth, GrowthSum;
      var place := iterationNum % WINDOW_SIZE;
      WindowStep(relation, prevRatios, sum, iterationNum);
      sum := sum - prevRatios[place];
      sum := sum + currRatio;
      prevRatios := prevRatios[place := currRatio];
      var average := sum / WINDOW_SIZE as real;
      small := average < GROWTH_THRESHOLD;
    }

    method SampleRound(index: nat)
      requires (|relation.rows| > 0 ==> HasClusters()) && index > 0 && relation.nullEqNull
      modifies this`negCover
      ensures negCover == old(negCover) + SampledIn(relation, index, |relation.rows|)
    {
      hide HasClusters, SampledIn, SampledOf;
      NoRowsSampled(relation, index);
      var tupleNum := 0;
      while tupleNum < |relation.rows|
        invariant tupleNum <= |relation.rows|
        invariant negCover == old(negCover) + SampledIn(relation, index, tupleNum)
      {
        HandleTuple(tupleNum, index);
        RowSampled(relation, index, tupleNum);
        tupleNum := tupleNum + 1;
      }
    }

    // Samples round by round, and stops after the first round at which the average growth is small.
    method CreateNegativeCover()
      requires (|relation.rows| > 0 ==> HasClusters()) && negCover == {} && relation.nullEqNull
      requires IsWindow(relation, prevRatios, sum, 1)
      modifies this`negCover, this`sum, this`prevRatios
      ensures negCover == Sampled(relation, Rounds(relation))
    {
      hide HasClusters, IsWindow, IsSmall, SampledIn, Rounds;
      var prevNegCoverSize := 0;
      var index := 1;
      var stop := false;
      while !stop
        invariant index >= 1 && (|relation.rows| > 0 ==> HasClusters())
        invariant negCover == Sampled(relation, index - 1) && prevNegCoverSize == |negCover|
        invariant IsWindow(relation, prevRatios, sum, index)
        invariant if stop then StopsAfter(relation, index - 1) else forall j: nat :: 1 <= j < index ==> !IsSmall(relation, j)
        decreases Rounds(relation) - index, !stop
      {
        StopIsAhead(relation, index);
        SampleRound(index);
        var currNegCoverSize := |negCover|;
        var currRatio;
        if prevNegCoverSize == 0 {
          currRatio := if currNegCoverSize == 0 then 0.0 else 1.0;
        } else {
          currRatio := currNegCoverSize as real / prevNegCoverSize as real - 1.0;
        }
        stop := IsNegativeCoverGrowthSmall(index, currRatio);
        prevNegCoverSize := currNegCoverSize;
        index := index + 1;
      }
      OneStop(relation, index - 1);
    }

    // ----- inverting the sample -----

    // Takes the members of a cover out that lie inside a sampled set.
    method RemoveSubsets(posCoverTree: SearchTree, subsets: seq<Vertical>, ghost family: set<Vertical>, ghost s: Vertical)
      requires posCoverTree.Valid() && IsCover(posCoverTree.Contents(), family, NoPruning()) && NoDuplicates(subsets)
      requires forall x :: x in subsets <==> x in posCoverTree.Contents() && x * s == {}
      modifies posCoverTree.Repr()
      ensures posCoverTree.Valid() && fresh(posCoverTree.Repr() - old(posCoverTree.Repr()))
      ensures Correcting(old(posCoverTree.Contents()), s, posCoverTree.Contents(), Pending(subsets, |subsets|, s), NoPruning())
      ensures forall x :: x in posCoverTree.Contents() ==> x * s != {}
      ensures forall x :: x in subsets ==> x !in posCoverTree.Contents()
    {
      hide IsCover, Correcting, Firsts, Pending, NoDuplicates, SearchTree.Valid, SearchTree.Contents;
      ghost var cover := posCoverTree.Contents();
      CorrectingStart(cover, family, s, NoPruning());
      FirstsAll(subsets);
      var i := 0;
      while i < |subsets|
        invariant 0 <= i <= |subsets| && posCoverTree.Valid() && fresh(posCoverTree.Repr() - old(posCoverTree.Repr()))
        invariant posCoverTree.Contents() == cover - Firsts(subsets, i)
        invariant Correcting(cover, s, posCoverTree.Contents(), Pending(subsets, i, s), NoPruning())
      {
        FirstsStep(subsets, i);
        PendingStep(subsets, i, s);
        CorrectingRemove(cover, family, s, posCoverTree.Contents(), Pending(subsets, i, s), NoPruning(), subsets[i]);
        var _ := posCoverTree.Remove(subsets[i]);
        i := i + 1;
      }
    }

    // Extends a removed member with one column unless a member already lies inside the extension.
    method AddExtension(posCoverTree: SearchTree, subset: Vertical, addAttr: nat, ghost cover: set<Vertical>,
                        ghost family: set<Vertical>, ghost s: Vertical, ghost pending: set<(Vertical, nat)>)
      requires posCoverTree.Valid() && IsCover(cover, family, NoPruning())
      requires Correcting(cover, s, posCoverTree.Contents(), pending, NoPruning())
      requires forall x :: x in posCoverTree.Contents() ==> x * s != {}
      requires subset in cover && subset * s == {} && addAttr in s && subset + s <= UpTo(posCoverTree.numberOfAttributes)
      modifies posCoverTree.Repr()
      ensures posCoverTree.Valid() && fresh(posCoverTree.Repr() - old(posCoverTree.Repr()))
      ensures Correcting(cover, s, posCoverTree.Contents(), pending - {(subset, addAttr)}, NoPruning())
      ensures forall x :: x in posCoverTree.Contents() ==> x * s != {}
    {
      hide IsCover, Correcting, SearchTree.Valid, SearchTree.Contents;
      ghost var next := posCoverTree.Contents();
      var extended := subset + {addAttr};
      CorrectingAdd(cover, family, s, next, pending, NoPruning(), subset, addAttr);
      var contains := posCoverTree.ContainsAnySubsetOf(extended);
      assert contains <==> HasSubset(next, extended);
      if !contains {
        assert addAttr in extended * s;
        assert !NoPruning()(extended);
        var _ := posCoverTree.Add(extended);
      }
    }

    method ExtendSubset(posCoverTree: SearchTree, subsets: seq<Vertical>, i: nat, negCoverEl: Vertical, rhs: nat,
                        ghost cover: set<Vertical>, ghost family: set<Vertical>, ghost s: Vertical)
      requires posCoverTree.Valid() && IsCover(cover, family, NoPruning()) && i < |subsets| && NoDuplicates(subsets)
      requires Correcting(cover, s, posCoverTree.Contents(), Rest(subsets, i, 0, s), NoPruning())
      requires forall x :: x in posCoverTree.Contents() ==> x * s != {}
      requires subsets[i] in cover && subsets[i] * s == {} && subsets[i] <= UpTo(relation.numColumns)
      requires posCoverTree.numberOfAttributes == relation.numColumns
      requires s == UpTo(relation.numColumns) - constantColumns - {rhs} - negCoverEl
      modifies posCoverTree.Repr()
      ensures posCoverTree.Valid() && fresh(posCoverTree.Repr() - old(posCoverTree.Repr()))
      ensures Correcting(cover, s, posCoverTree.Contents(), Rest(subsets, i + 1, 0, s), NoPruning())
      ensures forall x :: x in posCoverTree.Contents() ==> x * s != {}
    {
      hide IsCover, Correcting, Rest, NoDuplicates, SearchTree.Valid, SearchTree.Contents;
      var addAttr := 0;
      while addAttr < relation.numColumns
        invariant addAttr <= relation.numColumns
        invariant posCoverTree.Valid() && fresh(posCoverTree.Repr() - old(posCoverTree.Repr()))
        invariant Correcting(cover, s, posCoverTree.Contents(), Rest(subsets, i, addAttr, s), NoPruning())
        invariant forall x :: x in posCoverTree.Contents() ==> x * s != {}
      {
        if addAttr == rhs || addAttr in negCoverEl || addAttr in constantColumns {
          RestSkipColumn(subsets, i, addAttr, s);
        } else {
          RestNextColumn(subsets, i, addAttr, addAttr + 1, s);
          AddExtension(posCoverTree, subsets[i], addAttr, cover, family, s, Rest(subsets, i, addAttr, s));
        }
        addAttr := addAttr + 1;
      }
      RestNextMember(subsets, i, relation.numColumns, s);
    }

    // One sampled set without the right-hand side: afterwards the cover meets its complement as well.
    method HandleInvalidFd(negCoverEl: Vertical, posCoverTree: SearchTree, rhs: nat, ghost family: set<Vertical>)
      requires posCoverTree.Valid() && posCoverTree.numberOfAttributes == relation.numColumns
      requires IsCover(posCoverTree.Contents(), family, NoPruning())
      requires forall s :: s in family ==> s <= UpTo(relation.numColumns) - constantColumns - {rhs}
      modifies posCoverTree.Repr()
      ensures posCoverTree.Valid() && fresh(posCoverTree.Repr() - old(posCoverTree.Repr()))
      ensures IsCover(posCoverTree.Contents(), family + {UpTo(relation.numColumns) - constantColumns - {rhs} - negCoverEl}, NoPruning())
    {
      hide IsCover, UpwardClosed, Correcting, Rest, Pending, NoDuplicates, SearchTree.Valid, SearchTree.Contents, NoPruning, Hits;
      ghost var cover, usable := posCoverTree.Contents(), UpTo(relation.numColumns) - constantColumns - {rhs};
      ghost var s := usable - negCoverEl;
      InsideMeansMissing(cover, family, usable, negCoverEl);
      var subsets := posCoverTree.ForEachSubset(negCoverEl);
      RemoveSubsets(posCoverTree, subsets, family, s);
      RestStart(subsets, s);
      var i := 0;
      while i < |subsets|
        invariant 0 <= i <= |subsets|
        invariant posCoverTree.Valid() && fresh(posCoverTree.Repr() - old(posCoverTree.Repr()))
        invariant Correcting(cover, s, posCoverTree.Contents(), Rest(subsets, i, 0, s), NoPruning())
        invariant forall x :: x in posCoverTree.Contents() ==> x * s != {}
      {
        assert subsets[i] in subsets;
        ExtendSubset(posCoverTree, subsets, i, negCoverEl, rhs, cover, family, s);
        i := i + 1;
      }
      RestNothing(subsets, s);
      NothingIsPruned();
      CorrectingDone(cover, family, s, posCoverTree.Contents(), NoPruning());
    }

    // ----- renumbering the columns by frequency -----

    // Columns that more sampled sets have come first; ties are left open.
    method GetAttributesSortedByFrequency(negCoverVector: seq<Vertical>) returns (attrIndices: seq<nat>)
      ensures IsOrder(attrIndices, relation.numColumns)
      ensures forall i, j :: 0 <= i < j < |attrIndices| ==>
        |Containing(negCoverVector, attrIndices[j])| <= |Containing(negCoverVector, attrIndices[i])|
    {
      var frequency := seq(relation.numColumns, _ => 0);
      var i := 0;
      while i < |negCoverVector|
        invariant 0 <= i <= |negCoverVector| && |frequency| == relation.numColumns
        invariant forall a :: 0 <= a < relation.numColumns ==> frequency[a] == Coverage(negCoverVector[..i], a)
      {
        assert negCoverVector[..i + 1] == negCoverVector[..i] + [negCoverVector[i]];
        frequency := seq(relation.numColumns, a requires 0 <= a < |frequency| =>
          frequency[a] + if a in negCoverVector[i] then 1 else 0);
        i := i + 1;
      }
      assert negCoverVector[..|negCoverVector|] == negCoverVector;
      attrIndices := [];
      var rest := UpTo(relation.numColumns);
      while rest != {}
        invariant rest <= UpTo(relation.numColumns) && NoDuplicates(attrIndices)
        invariant forall a: nat :: a in attrIndices <==> a < relation.numColumns && a !in rest
        invariant |attrIndices| + |rest| == relation.numColumns
        invariant forall i :: 0 <= i < |attrIndices| ==> attrIndices[i] < relation.numColumns
        invariant forall i, j :: 0 <= i < j < |attrIndices| ==> frequency[attrIndices[j]] <= frequency[attrIndices[i]]
        invariant forall i, a :: 0 <= i < |attrIndices| && a in rest ==> frequency[a] <= frequency[attrIndices[i]]
        decreases |rest|
      {
        MostFrequent(rest, frequency);
        var most :| most in rest && forall a :: a in rest ==> frequency[a] <= frequency[most];
        attrIndices := attrIndices + [most];
        rest := rest - {most};
      }
      forall i, j | 0 <= i < j < |attrIndices|
        ensures |Containing(negCoverVector, attrIndices[j])| <= |Containing(negCoverVector, attrIndices[i])|
      {
        CoverageCounts(negCoverVector, attrIndices[i]);
        CoverageCounts(negCoverVector, attrIndices[j]);
      }
    }

    // Larger sampled sets first; ties are left open.
    method SortedByCount(sets: set<Vertical>) returns (list: seq<Vertical>)
      ensures ListsSets(list, sets)
      ensures forall i, j :: 0 <= i < j < |list| ==> |list[j]| <= |list[i]|
    {
      hide ListsSets;
      list := [];
      NothingTaken(sets);
      var rest := sets;
      while rest != {}
        invariant rest <= sets && ListsSets(list, sets - rest)
        invariant forall i, j :: 0 <= i < j < |list| ==> |list[j]| <= |list[i]|
        invariant forall s :: s in rest ==> forall i :: 0 <= i < |list| ==> |s| <= |list[i]|
        decreases |rest|
      {
        Largest(rest);
        var most :| most in rest && forall s :: s in rest ==> |s| <= |most|;
        OneTaken(list, sets, rest, most);
        list := list + [most];
        rest := rest - {most};
      }
      assert sets - rest == sets;
    }

    static method ChangeAttributesOrder(initialBitset: Vertical, newOrder: seq<nat>) returns (modified: Vertical)
      requires initialBitset <= UpTo(|newOrder|)
      ensures modified == Renamed(initialBitset, newOrder)
    {
      modified := {};
      var bit := 0;
      while bit < |newOrder|
        invariant bit <= |newOrder|
        invariant modified == Renamed((set b | b in initialBitset && b < bit), newOrder)
      {
        if bit in initialBitset {
          modified := modified + {newOrder[bit]};
        }
        bit := bit + 1;
      }
      assert (set b | b in initialBitset && b < bit) == initialBitset;
    }

    static method Inverse(attrIndices: seq<nat>) returns (inverse: seq<nat>)
      requires IsOrder(attrIndices, |attrIndices|)
      ensures AreInverse(attrIndices, inverse, |attrIndices|)
    {
      inverse := seq(|attrIndices|, _ => 0);
      var i := 0;
      while i < |attrIndices|
        invariant 0 <= i <= |attrIndices| == |inverse|
        invariant forall j :: 0 <= j < i ==> attrIndices[j] < |attrIndices| && inverse[attrIndices[j]] == j
      {
        assert attrIndices[i] in attrIndices;
        inverse := inverse[attrIndices[i] := i];
        i := i + 1;
      }
    }

    static method ChangeAll(list: seq<Vertical>, newOrder: seq<nat>) returns (changed: seq<Vertical>)
      requires forall s :: s in list ==> s <= UpTo(|newOrder|)
      ensures IsRenamedList(changed, list, newOrder)
    {
      changed := [];
      var i := 0;
      while i < |list|
        invariant 0 <= i <= |list| && IsRenamedList(changed, list[..i], newOrder)
      {
        var s := ChangeAttributesOrder(list[i], newOrder);
        changed := changed + [s];
        i := i + 1;
      }
      assert list[..|list|] == list;
    }

    // ----- inverting the sample column by column -----

    ghost predicate SampleInRange()
      reads this`negCover
    {
      forall s :: s in negCover ==> s <= UpTo(relation.numColumns)
    }

    // A constant column is determined by nothing at all, and is no use in a left-hand side.
    method HandleConstantColumns(attributes: Vertical) returns (nonConstant: Vertical)
      requires constantColumns == Constants(relation) && fdCollection == []
      modifies this`fdCollection
      ensures nonConstant == attributes - constantColumns
      ensures Appended(fdCollection, [], InvertedFds(relation, negCover, constantColumns))
    {
      hide Appended, InvertedFds;
      nonConstant := attributes;
      var n := relation.numColumns;
      var attrNum := FindFrom(constantColumns, 0, n);
      ghost var handled: Vertical := {};
      NoneInverted(relation, negCover);
      while attrNum < n
        invariant attrNum <= n && (attrNum < n ==> attrNum in constantColumns)
        invariant handled == set c | c in constantColumns && c < attrNum
        invariant nonConstant == attributes - handled
        invariant Appended(fdCollection, [], InvertedFds(relation, negCover, handled))
        decreases n - attrNum
      {
        nonConstant := nonConstant - {attrNum};
        InvertedConstant(relation, negCover, attrNum);
        OneMoreFd(Fd({}, attrNum), fdCollection);
        MoreInverted(fdCollection + [Fd({}, attrNum)], fdCollection, relation, negCover, handled, attrNum);
        fdCollection := fdCollection + [Fd({}, attrNum)];
        handled := handled + {attrNum};
        attrNum := FindNext(constantColumns, attrNum, n);
      }
      assert handled == constantColumns;
    }

    method RegisterFDs(rhs: nat, lhsList: seq<Vertical>)
      requires NoDuplicates(lhsList)
      modifies this`fdCollection
      ensures Appended(fdCollection, old(fdCollection), set x | x in lhsList :: Fd(x, rhs))
    {
      var i := 0;
      AppendNothing(fdCollection);
      while i < |lhsList|
        invariant 0 <= i <= |lhsList|
        invariant Appended(fdCollection, old(fdCollection), set x | x in lhsList[..i] :: Fd(x, rhs))
      {
        assert lhsList[..i + 1] == lhsList[..i] + [lhsList[i]];
        assert lhsList[i] !in lhsList[..i];
        AppendOne(fdCollection, old(fdCollection), set x | x in lhsList[..i] :: Fd(x, rhs), Fd(lhsList[i], rhs));
        fdCollection := fdCollection + [Fd(lhsList[i], rhs)];
        i := i + 1;
      }
      assert lhsList[..i] == lhsList;
    }

    // The tree of one column meets, one after the other, the complements of the sampled sets without it.
    method CoverOf(attributes: Vertical, negCoverVector: seq<Vertical>, rhs: nat) returns (posCoverTree: SearchTree)
      requires rhs < relation.numColumns && attributes == UpTo(relation.numColumns) - constantColumns - {rhs}
      ensures posCoverTree.Valid() && fresh(posCoverTree.Repr())
      ensures IsCover(posCoverTree.Contents(), FamilySoFar(negCoverVector, |negCoverVector|, attributes, rhs), NoPruning())
    {
      hide IsCover, FamilySoFar, SearchTree.Valid, SearchTree.Contents;
      posCoverTree := new SearchTree.Singletons(attributes, relation.numColumns);
      SinglesCover(attributes, posCoverTree.Contents());
      FamilyStart(negCoverVector, attributes, rhs);
      var i := 0;
      while i < |negCoverVector|
        invariant 0 <= i <= |negCoverVector|
        invariant posCoverTree.Valid() && fresh(posCoverTree.Repr()) && posCoverTree.numberOfAttributes == relation.numColumns
        invariant IsCover(posCoverTree.Contents(), FamilySoFar(negCoverVector, i, attributes, rhs), NoPruning())
      {
        FamilyStep(negCoverVector, i, attributes, rhs);
        FamilyInside(negCoverVector, i, attributes, rhs);
        if rhs !in negCoverVector[i] {
          HandleInvalidFd(negCoverVector[i], posCoverTree, rhs, FamilySoFar(negCoverVector, i, attributes, rhs));
        }
        i := i + 1;
      }
    }

    method InvertColumn(attributes: Vertical, negCoverVector: seq<Vertical>, rhs: nat, attrIndices: seq<nat>,
                        ghost inverse: seq<nat>, ghost sampled: seq<Vertical>)
      requires AreInverse(attrIndices, inverse, relation.numColumns) && rhs < relation.numColumns
      requires constantColumns == Renamed(Constants(relation), inverse) && rhs !in constantColumns
      requires attributes == UpTo(relation.numColumns) - constantColumns - {rhs} && SampleInRange()
      requires IsRenamedList(negCoverVector, sampled, inverse) && ListsSets(sampled, negCover)
      modifies this`fdCollection
      ensures Appended(fdCollection, old(fdCollection), InvertedFds(relation, negCover, {attrIndices[rhs]}))
    {
      hide IsCover, FamilySoFar, SearchTree.Valid, SearchTree.Contents, Renamed, Appended, InvertedFds, MinimalHitting;
      hide AreInverse, IsRenamedList, Constants, Usable, SampledFamily, RenamedAll;
      InverseForth(attrIndices, inverse, relation.numColumns, rhs);
      var realRhs := attrIndices[rhs];
      ghost var usable := Usable(relation, realRhs);
      ghost var family := SampledFamily(negCover, usable, realRhs);
      RenamedUsable(relation, rhs, attrIndices, inverse);
      UsableInside(relation, realRhs, negCover);
      RenamedFamily(negCover, sampled, negCoverVector, usable, attributes, realRhs, attrIndices, inverse, relation.numColumns);
      var posCoverTree := CoverOf(attributes, negCoverVector, rhs);
      RenamedCoverBack(family, posCoverTree.Contents(), usable, attrIndices, inverse, relation.numColumns);
      var found := posCoverTree.ForEach();
      var posCoverVector := ChangeAll(found, attrIndices);
      ChangedList(found, posCoverTree.Contents(), posCoverVector, attrIndices);
      RegisterFDs(realRhs, posCoverVector);
      InvertedUsable(relation, negCover, realRhs);
      assert (set x | x in posCoverVector :: Fd(x, realRhs)) == InvertedFds(relation, negCover, {realRhs});
    }

    // Registers, for the sample at hand, exactly the inverted dependencies, each once.
    method InvertNegativeCover()
      requires constantColumns == Constants(relation) && fdCollection == [] && SampleInRange()
      modifies this`fdCollection, this`constantColumns
      ensures InvertsSample(fdCollection, relation, negCover)
    {
      hide Appended, InvertedFds, InvertsSample, AreInverse, IsOrder, IsRenamedList, Constants, ListsSets, Renamed;
      hide Handled, Usable, NoDuplicates, Containing;
      var n := relation.numColumns;
      ghost var constants := Constants(relation);
      ConstantsInside(relation);
      var attributes := HandleConstantColumns(UpTo(n));
      var sampled := SortedByCount(negCover);
      var attrIndices := GetAttributesSortedByFrequency(sampled);
      OrderSize(attrIndices, n);
      var inverse := Inverse(attrIndices);
      InverseSize(attrIndices, inverse, n);
      ListedInside(sampled, negCover, n);
      constantColumns := ChangeAttributesOrder(constantColumns, inverse);
      attributes := ChangeAttributesOrder(attributes, inverse);
      RenamedRest(relation, attrIndices, inverse);
      var negCoverVector := ChangeAll(sampled, inverse);
      ghost var handled := constants;
      HandledStart(constants, attrIndices);
      var rhs := 0;
      while rhs < n
        invariant rhs <= n && handled == Handled(constants, attrIndices, rhs)
        invariant constantColumns == Renamed(constants, inverse) && attributes == UpTo(n) - constantColumns
        invariant Appended(fdCollection, [], InvertedFds(relation, negCover, handled))
      {
        RenamedUsable(relation, rhs, attrIndices, inverse);
        HandledStep(constants, attrIndices, rhs, n);
        if rhs !in constantColumns {
          attributes := attributes - {rhs};
          ghost var before := fdCollection;
          InvertColumn(attributes, negCoverVector, rhs, attrIndices, inverse, sampled);
          MoreInverted(fdCollection, before, relation, negCover, handled, attrIndices[rhs]);
          handled := handled + {attrIndices[rhs]};
          attributes := attributes + {rhs};
        }
        rhs := rhs + 1;
      }
      HandledAll(constants, attrIndices, n);
      AllInverted(fdCollection, relation, negCover);
    }

    // A run registers the inversion of a sample of the agree sets: with CoversEveryFd, every dependency of a
    // relation with rows has a registered one inside it, and with ExactWhenAllHold the result is exact when all hold.
    // The sample is a function of the rows, and the list is exact when and only when it suffices; it does whenever no value of
    // a column that is not constant occurs more than twelve times.
    method ExecuteInternal()
      requires constantColumns == {} && negCover == {} && fdCollection == [] && relation.nullEqNull
      requires IsWindow(relation, prevRatios, sum, 1) && clusters == []
      modifies this
      ensures negCover == Sampled(relation, Rounds(relation)) && negCover <= AgreeSets(relation)
      ensures InvertsSample(fdCollection, relation, negCover)
      ensures relation.numColumns > 0 ==> (ListsMinimalFds(fdCollection, relation) <==>
        |relation.rows| > 0 && SampleSuffices(relation, Sampled(relation, Rounds(relation))))
      ensures relation.numColumns > 0 && |relation.rows| > 0 && ValuesOccurAtMost(relation, 12) ==> ListsMinimalFds(fdCollection, relation)
    {
      hide AgreeSets, InvertsSample, HasClusters, Constants, IsWindow, Sampled, Rounds, ListsMinimalFds, SampleSuffices, ValuesOccurAtMost;
      BuildClusters();
      CreateNegativeCover();
      SampledAreAgreeSets(relation, Rounds(relation));
      SampleInside(relation, negCover);
      InvertNegativeCover();
      if relation.numColumns > 0 {
        ExactWhenSampled(fdCollection, relation, negCover);
        if ValuesOccurAtMost(relation, 12) {
          TwelveTimesSuffice(relation);
        }
      }
    }
  }

  lemma NothingIsPruned()
    ensures UpwardClosed(NoPruning())
  {
  }

  lemma {:induction false} MostFrequent(columns: Vertical, frequency: seq<nat>)
    requires columns != {} && columns <= UpTo(|frequency|)
    ensures exists most :: most in columns && forall a :: a in columns ==> frequency[a] <= frequency[most]
    decreases |columns|
  {
    var c :| c in columns;
    var rest := columns - {c};
    if rest != {} {
      MostFrequent(rest, frequency);
      var most :| most in rest && forall a :: a in rest ==> frequency[a] <= frequency[most];
      var best := if frequency[c] <= frequency[most] then most else c;
      assert forall a :: a in columns ==> a == c || a in rest;
      assert best in columns && forall a :: a in columns ==> frequency[a] <= frequency[best];
    }
  }

  lemma {:induction false} Largest(sets: set<Vertical>)
    requires sets != {}
    ensures exists most :: most in sets && forall s :: s in sets ==> |s| <= |most|
    decreases |sets|
  {
    var c :| c in sets;
    var rest := sets - {c};
    if rest != {} {
      Largest(rest);
      var most :| most in rest && forall s :: s in rest ==> |s| <= |most|;
      var best := if |c| <= |most| then most else c;
      assert forall s :: s in sets ==> s == c || s in rest;
      assert best in sets && forall s :: s in sets ==> |s| <= |best|;
    }
  }

  lemma NothingTaken(sets: set<Vertical>)
    ensures ListsSets([], sets - sets)
  {
  }

  lemma OneTaken(list: seq<Vertical>, sets: set<Vertical>, rest: set<Vertical>, x: Vertical)
    requires ListsSets(list, sets - rest) && x in rest && rest <= sets
    ensures ListsSets(list + [x], sets - (rest - {x}))
  {
    assert x !in list;
  }

  lemma UsableInside(r: Relation, a: nat, negCover: set<Vertical>)
    ensures Usable(r, a) <= UpTo(r.numColumns)
    ensures forall s :: s in SampledFamily(negCover, Usable(r, a), a) ==> s <= Usable(r, a)
  {
  }

  lemma ChangedList(list: seq<Vertical>, sets: set<Vertical>, changed: seq<Vertical>, order: seq<nat>)
    requires ListsSets(list, sets) && IsRenamedList(changed, list, order)
    requires forall x, y :: x in sets && y in sets && Renamed(x, order) == Renamed(y, order) ==> x == y
    ensures NoDuplicates(changed) && forall x :: x in changed <==> x in RenamedAll(sets, order)
  {
    hide Renamed;
    forall i | 0 <= i < |list| ensures list[i] in sets {
      assert list[i] in list;
    }
    forall x | x in RenamedAll(sets, order) ensures x in changed {
      var y :| y in sets && x == Renamed(y, order);
      var i :| 0 <= i < |list| && list[i] == y;
      assert changed[i] == x;
    }
  }

  lemma SampleInside(r: Relation, negCover: set<Vertical>)
    requires negCover <= AgreeSets(r)
    ensures forall s :: s in negCover ==> s <= UpTo(r.numColumns)
  {
  }

  lemma ConstantsInside(r: Relation)
    ensures Constants(r) <= UpTo(r.numColumns)
  {
  }

  lemma OrderSize(order: seq<nat>, n: nat)
    requires IsOrder(order, n)
    ensures |order| == n && forall i :: 0 <= i < n ==> order[i] < n
  {
    forall i | 0 <= i < n ensures order[i] < n {
      assert order[i] in order;
    }
  }

  lemma InverseSize(order: seq<nat>, inverse: seq<nat>, n: nat)
    requires AreInverse(order, inverse, n)
    ensures |inverse| == n
  {
  }

  lemma ListedInside(list: seq<Vertical>, sets: set<Vertical>, n: nat)
    requires ListsSets(list, sets) && forall s :: s in sets ==> s <= UpTo(n)
    ensures forall s :: s in list ==> s <= UpTo(n)
  {
  }

  // The columns that are not constant, in the new numbers.
  lemma RenamedRest(r: Relation, order: seq<nat>, inverse: seq<nat>)
    requires AreInverse(order, inverse, r.numColumns)
    ensures Renamed(UpTo(r.numColumns) - Constants(r), inverse) == UpTo(r.numColumns) - Renamed(Constants(r), inverse)
  {
    hide AreInverse, Renamed;
    RenamedAllColumns(order, inverse, r.numColumns);
    RenamedWithout(UpTo(r.numColumns), Constants(r), order, inverse, r.numColumns);
  }

  // The columns whose dependencies are registered once the new numbers below rhs are done.
  ghost function Handled(constants: Vertical, order: seq<nat>, rhs: nat): Vertical
    requires rhs <= |order|
  {
    constants + set i | 0 <= i < rhs :: order[i]
  }

  lemma HandledStart(constants: Vertical, order: seq<nat>)
    ensures Handled(constants, order, 0) == constants
  {
  }

  lemma HandledStep(constants: Vertical, order: seq<nat>, rhs: nat, n: nat)
    requires IsOrder(order, n) && rhs < n
    ensures order[rhs] in constants ==> Handled(constants, order, rhs + 1) == Handled(constants, order, rhs)
    ensures Handled(constants, order, rhs + 1) == Handled(constants, order, rhs) + {order[rhs]}
    ensures order[rhs] in Handled(constants, order, rhs) ==> order[rhs] in constants
  {
  }

  lemma HandledAll(constants: Vertical, order: seq<nat>, n: nat)
    requires IsOrder(order, n) && constants <= UpTo(n)
    ensures Handled(constants, order, n) == UpTo(n)
  {
    forall c | c in UpTo(n) ensures c in Handled(constants, order, n) {
      assert c in order;
    }
    forall i | 0 <= i < n ensures order[i] in UpTo(n) {
      assert order[i] in order;
    }
  }

  lemma NoClusters(rows: seq<seq<int>>, attr: nat)
    requires forall t :: 0 <= t < |rows| ==> attr < |rows[t]|
    ensures AreClusters(map[], [], rows, attr)
  {
  }

  lemma MoreClusters(columnValues: map<int, Cluster>, indices: seq<nat>, rows: seq<seq<int>>, attr: nat)
    requires (forall t :: 0 <= t < |rows| ==> attr < |rows[t]|) && |indices| < |rows|
    requires AreClusters(columnValues, indices, rows, attr)
    ensures var v := rows[|indices|][attr];
      var cluster := (if v in columnValues then columnValues[v] else []) + [|indices|];
      AreClusters(columnValues[v := cluster], indices + [|cluster| - 1], rows, attr)
  {
  }

  lemma ConstantByValues(r: Relation, a: nat)
    requires a in r.Columns() && |r.rows| > 0 && r.nullEqNull
    ensures a in Constants(r) <==> forall t :: 0 <= t < |r.rows| ==> r.rows[t][a] == r.rows[0][a]
  {
    if IsConstant(r, a) {
      forall t: nat | t < |r.rows| ensures r.rows[t][a] == r.rows[0][a] {
        assert r.IsRow(t) && r.IsRow(0) && r.Agree({}, t, 0);
        assert a in r.AgreeSet(t, 0);
      }
    }
    if forall t :: 0 <= t < |r.rows| ==> r.rows[t][a] == r.rows[0][a] {
      forall i: nat, j: nat | r.IsRow(i) && r.IsRow(j) ensures a in r.AgreeSet(i, j) {
        assert r.Same(i, j, a);
      }
    }
  }

  // The rows with a value, in order.
  ghost predicate HasRowsOf(cluster: Cluster, r: Relation, attr: nat, value: int)
    requires attr < r.numColumns
  {
    && Ascending(cluster)
    && forall u: nat :: u in cluster <==> u < |r.rows| && r.rows[u][attr] == value
  }

  lemma ClusterHasRows(columnValues: map<int, Cluster>, indices: seq<nat>, r: Relation, attr: nat, value: int)
    requires attr < r.numColumns && AreClusters(columnValues, indices, r.rows, attr) && |indices| == |r.rows|
    requires value in columnValues
    ensures HasRowsOf(columnValues[value], r, attr, value)
  {
    var cluster := columnValues[value];
    forall p, q | 0 <= p < q < |cluster| ensures cluster[p] < cluster[q] {
      assert columnValues[value][p] < columnValues[value][q];
    }
    forall u: nat ensures u in cluster <==> u < |r.rows| && r.rows[u][attr] == value {
      if u in cluster {
        var p :| 0 <= p < |cluster| && cluster[p] == u;
        assert columnValues[value][p] == u;
      }
    }
  }

  lemma InCluster(cluster: Cluster, r: Relation, attr: nat, value: int, p: nat)
    requires attr < r.numColumns && HasRowsOf(cluster, r, attr, value) && p < |cluster|
    ensures cluster[p] < |r.rows| && r.rows[cluster[p]][attr] == value
  {
    assert cluster[p] in cluster;
  }

  lemma RowsBeforeNext(cluster: Cluster, r: Relation, attr: nat, value: int, p: nat)
    requires attr < r.numColumns && HasRowsOf(cluster, r, attr, value) && p < |cluster| && cluster[p] <= |r.rows|
    requires p > 0 ==> cluster[p - 1] <= |r.rows|
    ensures RowsBefore(r, attr, value, cluster[p]) == if p == 0 then {} else RowsBefore(r, attr, value, cluster[p - 1]) + {cluster[p - 1]}
  {
    var after := if p == 0 then {} else RowsBefore(r, attr, value, cluster[p - 1]) + {cluster[p - 1]};
    forall u: nat ensures u in RowsBefore(r, attr, value, cluster[p]) <==> u in after {
      if u < |r.rows| && r.rows[u][attr] == value {
        assert u in cluster;
        var q :| 0 <= q < |cluster| && cluster[q] == u;
      }
      if p > 0 {
        InCluster(cluster, r, attr, value, p - 1);
      }
    }
  }

  // The place of a row in its cluster is the number of earlier rows with its value.
  lemma {:induction false} PlaceInCluster(cluster: Cluster, r: Relation, attr: nat, value: int, p: nat)
    requires attr < r.numColumns && HasRowsOf(cluster, r, attr, value) && p < |cluster|
    ensures cluster[p] < |r.rows| && r.rows[cluster[p]][attr] == value && Place(r, attr, cluster[p]) == p
  {
    hide HasRowsOf;
    InCluster(cluster, r, attr, value, p);
    if p > 0 {
      PlaceInCluster(cluster, r, attr, value, p - 1);
    }
    RowsBeforeNext(cluster, r, attr, value, p);
  }

  lemma TupleInCluster(columnValues: map<int, Cluster>, indices: seq<nat>, r: Relation, attr: nat, t: nat)
    requires attr < r.numColumns && AreClusters(columnValues, indices, r.rows, attr) && t < |indices| == |r.rows|
    ensures r.rows[t][attr] in columnValues && indices[t] < |columnValues[r.rows[t][attr]]| && indices[t] == Place(r, attr, t)
    ensures forall p :: 0 <= p < |columnValues[r.rows[t][attr]]| ==> columnValues[r.rows[t][attr]][p] < |r.rows|
  {
    hide Place, HasRowsOf;
    var value := r.rows[t][attr];
    ClusterHasRows(columnValues, indices, r, attr, value);
    PlaceInCluster(columnValues[value], r, attr, value, indices[t]);
  }

  // What the round picks in the cluster is the partner.
  lemma PartnerInCluster(columnValues: map<int, Cluster>, indices: seq<nat>, r: Relation, attr: nat, t: nat, round: nat)
    requires attr < r.numColumns && AreClusters(columnValues, indices, r.rows, attr) && t < |indices| == |r.rows|
    requires r.rows[t][attr] in columnValues && 0 < round <= indices[t] < |columnValues[r.rows[t][attr]]|
    ensures IsPartner(r, attr, t, round, columnValues[r.rows[t][attr]][GenerateSecondClusterIndex(indices[t], round)])
  {
    hide Place, HasRowsOf;
    var value := r.rows[t][attr];
    var q := GenerateSecondClusterIndex(indices[t], round);
    ClusterHasRows(columnValues, indices, r, attr, value);
    PlaceInCluster(columnValues[value], r, attr, value, indices[t]);
    PlaceInCluster(columnValues[value], r, attr, value, q);
    assert columnValues[value][q] < columnValues[value][indices[t]];
  }

  lemma NoRowsSampled(r: Relation, index: nat)
    ensures SampledIn(r, index, 0) == {}
  {
  }

  lemma StopIsAhead(r: Relation, index: nat)
    requires index >= 1 && forall j: nat :: 1 <= j < index ==> !IsSmall(r, j)
    ensures index <= Rounds(r)
  {
    hide IsSmall;
  }
}
