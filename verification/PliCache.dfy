// The cache of position list indexes: whatever is cached, a request gives the index of the requested columns.
module PliCaches {
  import opened Relations
  import opened Bits
  import opened Options
  import opened Partitions
  import opened PositionListIndexes
  import opened SetTrieNodes
  import opened SetTries
  import opened VerticalMaps

  datatype CachingMethod = CoinCaching | NoCaching | AllCaching | OtherCaching

  datatype PositionListIndexRank = Rank(vertical: Vertical, pli: PositionListIndex, addedArity: nat)

  // Every cached entry is the index of its columns, and the single columns are there.
  ghost predicate IsCanonicalCache(contents: map<Vertical, PositionListIndex>, r: Relation) {
    && (forall k :: k in contents ==> k <= r.Columns() && IsPliOf(contents[k], r, k))
    && forall c :: c in r.Columns() ==> {c} in contents
  }

  // Entries for some of the keys.
  ghost predicate AreRanks(ranks: seq<PositionListIndexRank>, r: Relation, keys: set<Vertical>) {
    forall i :: 0 <= i < |ranks| ==> ranks[i].vertical in keys && IsPliOf(ranks[i].pli, r, ranks[i].vertical)
  }

  ghost predicate AreInside(keys: set<Vertical>, vertical: Vertical) {
    forall k :: k in keys ==> k <= vertical
  }

  // Nothing is dropped or changed.
  ghost predicate Keeps(before: map<Vertical, PositionListIndex>, after: map<Vertical, PositionListIndex>) {
    forall k :: k in before ==> k in after && after[k] == before[k]
  }

  // A new index of cached columns is the one in the cache.
  lemma PutKeeps(contents: map<Vertical, PositionListIndex>, r: Relation, vertical: Vertical, pli: PositionListIndex)
    requires IsCanonicalCache(contents, r) && IsPliOf(pli, r, vertical)
    ensures Keeps(contents, contents[vertical := pli])
  {
    if vertical in contents {
      PliUnique(contents[vertical], pli, r, vertical);
    }
  }

  ghost function UnionOf(operands: seq<PositionListIndexRank>): Vertical {
    set i, c | 0 <= i < |operands| && c in operands[i].vertical :: c
  }

  lemma UnionOfMore(operands: seq<PositionListIndexRank>, rank: PositionListIndexRank)
    ensures UnionOf(operands + [rank]) == UnionOf(operands) + rank.vertical
  {
    var more := operands + [rank];
    forall c ensures c in UnionOf(more) <==> c in UnionOf(operands) + rank.vertical {
      if c in UnionOf(operands) {
        var i :| 0 <= i < |operands| && c in operands[i].vertical;
        assert c in more[i].vertical;
      }
      if c in rank.vertical {
        assert c in more[|operands|].vertical;
      }
    }
  }

  lemma MoreRanks(ranks: seq<PositionListIndexRank>, rank: PositionListIndexRank, r: Relation, keys: set<Vertical>)
    requires AreRanks(ranks, r, keys) && rank.vertical in keys && IsPliOf(rank.pli, r, rank.vertical)
    ensures AreRanks(ranks + [rank], r, keys)
  {
    hide IsPliOf;
    var more := ranks + [rank];
    forall i | 0 <= i < |more| ensures more[i].vertical in keys && IsPliOf(more[i].pli, r, more[i].vertical) {
      if i < |ranks| {
        assert more[i] == ranks[i];
      }
    }
  }

  // ----- choosing the operands -----

  // The cached subsets as ranks, and the one with the smallest index.
  method RanksOf(entries: seq<(Vertical, PositionListIndex)>, ghost r: Relation, ghost keys: set<Vertical>)
    returns (ranks: seq<PositionListIndexRank>, smallest: Option<PositionListIndexRank>)
    requires forall i :: 0 <= i < |entries| ==> entries[i].0 in keys && IsPliOf(entries[i].1, r, entries[i].0)
    ensures AreRanks(ranks, r, keys) && (entries != [] ==> smallest.Some?)
    ensures smallest.Some? ==> AreRanks([smallest.value], r, keys)
  {
    hide IsPliOf;
    ranks, smallest := [], None;
    while |ranks| < |entries|
      invariant |ranks| <= |entries| && (ranks != [] ==> smallest.Some?)
      invariant AreRanks(ranks, r, keys) && (smallest.Some? ==> AreRanks([smallest.value], r, keys))
    {
      var (subVertical, subPli) := entries[|ranks|];
      var pliRank := Rank(subVertical, subPli, |subVertical|);
      MoreRanks(ranks, pliRank, r, keys);
      ranks := ranks + [pliRank];
      if smallest.None? || smallest.value.pli.size > pliRank.pli.size
         || (smallest.value.pli.size == pliRank.pli.size && smallest.value.addedArity < pliRank.addedArity) {
        smallest := Some(pliRank);
      }
    }
  }

  // Recomputes what each rank adds to the cover, and drops those that add fewer than two columns.
  method DropLowRanks(ranks: seq<PositionListIndexRank>, cover: Vertical, ghost r: Relation, ghost keys: set<Vertical>)
    returns (kept: seq<PositionListIndexRank>)
    requires AreRanks(ranks, r, keys)
    ensures AreRanks(kept, r, keys) && |kept| <= |ranks|
    ensures forall i :: 0 <= i < |kept| ==> kept[i].addedArity == |kept[i].vertical - cover| >= 2
  {
    hide IsPliOf;
    kept := [];
    var i := 0;
    while i < |ranks|
      invariant 0 <= i <= |ranks| && |kept| <= i && AreRanks(kept, r, keys)
      invariant forall j :: 0 <= j < |kept| ==> kept[j].addedArity == |kept[j].vertical - cover| >= 2
    {
      var rank := ranks[i].(addedArity := |ranks[i].vertical - cover|);
      if rank.addedArity >= 2 {
        MoreRanks(kept, rank, r, keys);
        kept := kept + [rank];
      }
      i := i + 1;
    }
  }

  // The rank that adds most; of equal ones the one with the smallest index.
  method BestRank(ranks: seq<PositionListIndexRank>, ghost r: Relation, ghost keys: set<Vertical>)
    returns (best: Option<PositionListIndexRank>)
    requires AreRanks(ranks, r, keys)
    ensures best.Some? <==> ranks != []
    ensures best.Some? ==> best.value in ranks && best.value.vertical in keys && IsPliOf(best.value.pli, r, best.value.vertical)
    ensures best.Some? ==> forall i :: 0 <= i < |ranks| ==> ranks[i].addedArity <= best.value.addedArity
  {
    hide IsPliOf;
    best := None;
    var i := 0;
    while i < |ranks|
      invariant 0 <= i <= |ranks| && (best.Some? <==> i > 0)
      invariant best.Some? ==> exists j :: 0 <= j < i && ranks[j] == best.value
      invariant best.Some? ==> forall j :: 0 <= j < i ==> ranks[j].addedArity <= best.value.addedArity
    {
      if best.None? || best.value.addedArity < ranks[i].addedArity
         || (best.value.addedArity == ranks[i].addedArity && best.value.pli.size > ranks[i].pli.size) {
        best := Some(ranks[i]);
      }
      i := i + 1;
    }
  }

  // Greedy: every round adds a rank with at least two new columns, or runs out of ranks.
  method CoverGreedily(vertical: Vertical, allRanks: seq<PositionListIndexRank>, first: PositionListIndexRank, ghost r: Relation,
                       ghost keys: set<Vertical>)
    returns (operands: seq<PositionListIndexRank>, cover: Vertical)
    requires AreRanks(allRanks, r, keys) && AreRanks([first], r, keys) && AreInside(keys, vertical)
    ensures AreRanks(operands, r, keys) && operands != [] && cover == UnionOf(operands) <= vertical
  {
    hide IsPliOf, AreRanks, UnionOf;
    var ranks := allRanks;
    operands, cover := [first], first.vertical;
    FirstOperand(first, r, keys);
    while |cover| < |vertical| && ranks != []
      invariant AreRanks(ranks, r, keys) && AreRanks(operands, r, keys)
      invariant operands != [] && cover == UnionOf(operands) <= vertical
      decreases vertical - cover, |ranks|
    {
      ranks := DropLowRanks(ranks, cover, r, keys);
      var best := BestRank(ranks, r, keys);
      if best.Some? {
        Grows(cover, best.value.vertical, vertical);
        MoreRanks(operands, best.value, r, keys);
        UnionOfMore(operands, best.value);
        operands := operands + [best.value];
        cover := cover + best.value.vertical;
      }
    }
  }

  lemma FirstOperand(first: PositionListIndexRank, r: Relation, keys: set<Vertical>)
    requires AreRanks([first], r, keys)
    ensures UnionOf([first]) == first.vertical && first.vertical in keys
  {
    hide IsPliOf;
    assert [first][0] == first;
  }

  lemma Grows(cover: Vertical, added: Vertical, vertical: Vertical)
    requires cover <= vertical && added <= vertical && |added - cover| >= 2
    ensures vertical - (cover + added) < vertical - cover
  {
    assert added - cover != {};
    var c :| c in added - cover;
    assert c in vertical - cover && c !in vertical - (cover + added);
  }

  ghost predicate SortedBySize(operands: seq<PositionListIndexRank>) {
    forall i, j :: 0 <= i < j < |operands| ==> operands[i].pli.size <= operands[j].pli.size
  }

  method InsertBySize(sorted: seq<PositionListIndexRank>, rank: PositionListIndexRank) returns (more: seq<PositionListIndexRank>)
    requires SortedBySize(sorted)
    ensures SortedBySize(more) && multiset(more) == multiset(sorted) + multiset{rank}
  {
    var j := 0;
    while j < |sorted| && sorted[j].pli.size <= rank.pli.size
      invariant 0 <= j <= |sorted| && forall k :: 0 <= k < j ==> sorted[k].pli.size <= rank.pli.size
    {
      j := j + 1;
    }
    assert sorted == sorted[..j] + sorted[j..];
    more := sorted[..j] + [rank] + sorted[j..];
  }

  method SortBySize(operands: seq<PositionListIndexRank>) returns (sorted: seq<PositionListIndexRank>)
    ensures SortedBySize(sorted) && multiset(sorted) == multiset(operands)
  {
    hide SortedBySize;
    sorted := [];
    NothingToSort();
    var i := 0;
    while i < |operands|
      invariant 0 <= i <= |operands| && SortedBySize(sorted) && multiset(sorted) == multiset(operands[..i])
    {
      assert operands[..i + 1] == operands[..i] + [operands[i]];
      sorted := InsertBySize(sorted, operands[i]);
      i := i + 1;
    }
    assert operands[..i] == operands;
  }

  lemma NothingToSort()
    ensures SortedBySize([])
  {
  }

  // The order of the operands does not matter.
  lemma SameOperands(p: seq<PositionListIndexRank>, q: seq<PositionListIndexRank>, r: Relation, keys: set<Vertical>)
    requires multiset(p) == multiset(q) && AreRanks(q, r, keys)
    ensures AreRanks(p, r, keys) && UnionOf(p) == UnionOf(q) && (p == [] <==> q == [])
  {
    hide IsPliOf;
    forall i | 0 <= i < |p| ensures p[i] in q {
      assert p[i] in multiset(p);
      assert p[i] in multiset(q);
    }
    forall i | 0 <= i < |q| ensures q[i] in p {
      assert q[i] in multiset(q);
      assert q[i] in multiset(p);
    }
    SubUnion(p, q);
    SubUnion(q, p);
    assert |p| == |multiset(p)| && |q| == |multiset(q)|;
  }

  lemma SubUnion(p: seq<PositionListIndexRank>, q: seq<PositionListIndexRank>)
    requires forall i :: 0 <= i < |p| ==> p[i] in q
    ensures UnionOf(p) <= UnionOf(q)
  {
    forall c | c in UnionOf(p) ensures c in UnionOf(q) {
      var i :| 0 <= i < |p| && c in p[i].vertical;
      assert p[i] in q;
    }
  }

  class PLICache {
    const relation: Relation
    const probingTables: seq<seq<nat>>
    const index: VerticalMap<PositionListIndex>
    const cachingMethod: CachingMethod
    const naryIntersectionSize: nat

    ghost predicate Valid()
      reads index, index.setTrie, index.setTrie.Repr
    {
      && index.Valid() && index.numColumns == relation.numColumns && AreProbingTables(probingTables, relation)
      && IsCanonicalCache(index.Contents(), relation)
    }

    constructor (relation: Relation, columnData: seq<PositionListIndex>, probingTables: seq<seq<nat>>,
                 cachingMethod: CachingMethod, naryIntersectionSize: nat)
      requires AreColumnPlis(columnData, relation) && AreProbingTables(probingTables, relation)
      ensures Valid() && fresh(index.Repr()) && this.relation == relation
      ensures this.cachingMethod == cachingMethod && this.naryIntersectionSize == naryIntersectionSize
      ensures forall k :: k in index.Contents() <==> exists c :: c in relation.Columns() && k == {c}
    {
      hide IsPliOf, VerticalMap.Valid, VerticalMap.Contents, AreProbingTables;
      this.relation, this.probingTables := relation, probingTables;
      this.cachingMethod, this.naryIntersectionSize := cachingMethod, naryIntersectionSize;
      index := new VerticalMap<PositionListIndex>(relation.numColumns);
      new;
      var c := 0;
      while c < relation.numColumns
        invariant c <= relation.numColumns && index.Valid() && fresh(index.Repr())
        invariant forall k :: k in index.Contents() ==> k <= relation.Columns() && IsPliOf(index.Contents()[k], relation, k)
        invariant forall b: nat :: b < c ==> {b} in index.Contents()
        invariant forall k :: k in index.Contents() ==> exists b: nat :: b < c && k == {b}
      {
        var _ := index.Put({c}, columnData[c]);
        c := c + 1;
      }
    }

    function Get(vertical: Vertical): (pli: Option<PositionListIndex>)
      requires Valid() && vertical <= relation.Columns()
      reads index, index.setTrie, index.setTrie.Repr
      ensures pli.Some? ==> IsPliOf(pli.value, relation, vertical)
      ensures pli.Some? <==> vertical in index.Contents()
    {
      index.Get(vertical)
    }

    // Keeps or forgets a new index; other methods are rejected with an exception.
    method CachingProcess(vertical: Vertical, pli: PositionListIndex) returns (result: Option<PositionListIndex>)
      requires Valid() && vertical <= relation.Columns() && IsPliOf(pli, relation, vertical)
      modifies index.Repr()
      ensures Valid() && fresh(index.Repr() - old(index.Repr()))
      ensures result == if cachingMethod == OtherCaching then None else Some(pli)
      ensures index.Contents() == old(index.Contents()) || index.Contents() == old(index.Contents())[vertical := pli]
      ensures cachingMethod == AllCaching ==> index.Contents() == old(index.Contents())[vertical := pli]
      ensures cachingMethod == NoCaching || cachingMethod == OtherCaching ==> index.Contents() == old(index.Contents())
      ensures Keeps(old(index.Contents()), index.Contents())
    {
      hide IsPliOf, VerticalMap.Valid, VerticalMap.Contents;
      PutKeeps(index.Contents(), relation, vertical, pli);
      match cachingMethod
      case CoinCaching =>
        var heads: bool := *;
        if heads {
          var _ := index.Put(vertical, pli);
        }
        return Some(pli);
      case NoCaching =>
        return Some(pli);
      case AllCaching =>
        var _ := index.Put(vertical, pli);
        return Some(pli);
      case OtherCaching =>
        return None;
    }

    // The columns that the cover still lacks, one by one.
    method AddMissingColumns(vertical: Vertical, covering: seq<PositionListIndexRank>, cover: Vertical)
      returns (operands: seq<PositionListIndexRank>)
      requires Valid() && vertical <= relation.Columns()
      requires AreRanks(covering, relation, index.Contents().Keys) && cover == UnionOf(covering) <= vertical
      ensures AreRanks(operands, relation, index.Contents().Keys) && UnionOf(operands) == vertical
    {
      hide IsPliOf, AreRanks, UnionOf, VerticalMap.Valid, VerticalMap.Contents, Valid;
      operands := covering;
      ghost var keys := index.Contents().Keys;
      var n := relation.numColumns;
      var column := FindFrom(vertical, 0, n);
      ghost var added: Vertical := {};
      while column < n
        invariant column <= n && (column < n ==> column in vertical)
        invariant AreRanks(operands, relation, keys) && UnionOf(operands) == cover + added
        invariant added == set c | c in vertical && c < column
        decreases n - column
      {
        if column !in cover {
          SingleCached(column);
          var rank := Rank({column}, Get({column}).value, 1);
          MoreRanks(operands, rank, relation, keys);
          UnionOfMore(operands, rank);
          operands := operands + [rank];
        }
        added := added + {column};
        column := FindNext(vertical, column, n);
      }
      assert added == vertical;
    }

    lemma SingleCached(c: nat)
      requires Valid() && c in relation.Columns()
      ensures {c} in index.Contents() && {c} <= relation.Columns()
    {
    }

    // Pairwise: the indexes of growing unions, each of which may be cached.
    method IntersectPairwise(operands: seq<PositionListIndexRank>) returns (result: Option<PositionListIndex>)
      requires Valid() && operands != [] && AreRanks(operands, relation, index.Contents().Keys)
      modifies index.Repr()
      ensures Valid() && fresh(index.Repr() - old(index.Repr()))
      ensures result.Some? ==> IsPliOf(result.value, relation, UnionOf(operands))
      ensures result.Some? <==> cachingMethod != OtherCaching || |operands| == 1
      ensures Keeps(old(index.Contents()), index.Contents())
      ensures index.Contents().Keys <= old(index.Contents().Keys) + Unions(operands, |operands|)
      ensures cachingMethod == NoCaching || cachingMethod == OtherCaching ==> index.Contents() == old(index.Contents())
      ensures cachingMethod == AllCaching ==> index.Contents().Keys == old(index.Contents().Keys) + Unions(operands, |operands|)
    {
      hide IsPliOf, UnionOf, VerticalMap.Valid, VerticalMap.Contents, AreProbingTables, Unions;
      OperandsFit(operands);
      var currentVertical := operands[0].vertical;
      var current := operands[0].pli;
      FirstUnion(operands);
      var i := 1;
      while i < |operands|
        invariant 1 <= i <= |operands|
        invariant Valid() && fresh(index.Repr() - old(index.Repr()))
        invariant currentVertical == UnionOf(operands[..i]) && currentVertical <= relation.Columns()
        invariant IsPliOf(current, relation, currentVertical)
        invariant Keeps(old(index.Contents()), index.Contents()) && (cachingMethod == OtherCaching ==> i == 1)
        invariant index.Contents().Keys <= old(index.Contents().Keys) + Unions(operands, i)
        invariant cachingMethod == NoCaching || cachingMethod == OtherCaching ==> index.Contents() == old(index.Contents())
        invariant cachingMethod == AllCaching ==> index.Contents().Keys == old(index.Contents().Keys) + Unions(operands, i)
      {
        assert operands[..i + 1] == operands[..i] + [operands[i]];
        UnionOfMore(operands[..i], operands[i]);
        NextUnion(operands, i);
        current := Intersect(current, operands[i].pli, relation, currentVertical, operands[i].vertical);
        currentVertical := currentVertical + operands[i].vertical;
        var processed := CachingProcess(currentVertical, current);
        if processed.None? {
          return None;
        }
        i := i + 1;
      }
      assert operands[..|operands|] == operands;
      return Some(current);
    }

    lemma OperandsFit(operands: seq<PositionListIndexRank>)
      requires Valid() && AreRanks(operands, relation, index.Contents().Keys)
      ensures forall i :: 0 <= i < |operands| ==>
        operands[i].vertical <= relation.Columns() && IsPliOf(operands[i].pli, relation, operands[i].vertical)
    {
      hide IsPliOf;
    }

    lemma FirstUnion(operands: seq<PositionListIndexRank>)
      requires operands != []
      ensures UnionOf(operands[..1]) == operands[0].vertical && Unions(operands, 1) == {}
    {
    }

    lemma NextUnion(operands: seq<PositionListIndexRank>, i: nat)
      requires 1 <= i < |operands|
      ensures Unions(operands, i + 1) == Unions(operands, i) + {UnionOf(operands[..i + 1])}
      ensures Unions(operands, i + 1) <= Unions(operands, |operands|)
    {
    }

    // All at once: the columns that the smallest operand lacks are probed together.
    method IntersectAtOnce(vertical: Vertical, base: PositionListIndexRank) returns (result: Option<PositionListIndex>)
      requires Valid() && vertical <= relation.Columns() && base.vertical <= vertical && IsPliOf(base.pli, relation, base.vertical)
      modifies index.Repr()
      ensures Valid() && fresh(index.Repr() - old(index.Repr()))
      ensures result.Some? ==> IsPliOf(result.value, relation, vertical)
      ensures result.Some? <==> cachingMethod != OtherCaching
      ensures Keeps(old(index.Contents()), index.Contents())
      ensures index.Contents().Keys <= old(index.Contents().Keys) + {vertical}
      ensures cachingMethod == NoCaching || cachingMethod == OtherCaching ==> index.Contents() == old(index.Contents())
      ensures cachingMethod == AllCaching ==> index.Contents().Keys == old(index.Contents().Keys) + {vertical}
    {
      hide IsPliOf, VerticalMap.Valid, VerticalMap.Contents, IsCanonicalCache, AreProbingTables;
      var pli := ProbeAll(base.pli, vertical - base.vertical, probingTables, relation, base.vertical);
      assert base.vertical + (vertical - base.vertical) == vertical;
      result := CachingProcess(vertical, pli);
    }

    // The index of any columns but none; a caching method that is not supported fails unless the index is cached. What is
    // cached stays, and what is new lies inside the columns: nothing without caching, and the result with caching of all.
    method GetOrCreateFor(vertical: Vertical) returns (result: Option<PositionListIndex>)
      requires Valid() && vertical <= relation.Columns()
      modifies index.Repr()
      ensures Valid() && fresh(index.Repr() - old(index.Repr()))
      ensures result.Some? ==> IsPliOf(result.value, relation, vertical)
      ensures result.Some? <==> vertical in old(index.Contents()) || (vertical != {} && cachingMethod != OtherCaching)
      ensures Keeps(old(index.Contents()), index.Contents())
      ensures forall k :: k in index.Contents() && k !in old(index.Contents()) ==> k <= vertical
      ensures vertical in old(index.Contents()) || cachingMethod == NoCaching || cachingMethod == OtherCaching ==>
        index.Contents() == old(index.Contents())
      ensures cachingMethod == AllCaching && result.Some? ==>
        vertical in index.Contents() && index.Contents()[vertical] == result.value
    {
      hide IsPliOf, AreRanks, UnionOf, VerticalMap.Valid, VerticalMap.Contents, AreProbingTables, Unions;
      result := Get(vertical);
      if result.Some? {
        return;
      }
      var subsetEntries := index.GetSubsetEntries(vertical);
      ghost var keys := SubsetKeys(index.Contents(), vertical);
      EntriesAreCanonical(subsetEntries, index.Contents(), relation, vertical);
      var ranks, smallest := RanksOf(subsetEntries, relation, keys);
      var operands: seq<PositionListIndexRank> := [];
      var cover: Vertical := {};
      NoOperands(relation, keys);
      if smallest.Some? {
        operands, cover := CoverGreedily(vertical, ranks, smallest.value, relation, keys);
      }
      FewerKeys(operands, relation, keys, index.Contents().Keys);
      operands := AddMissingColumns(vertical, operands, cover);
      var sorted := SortBySize(operands);
      SameOperands(sorted, operands, relation, index.Contents().Keys);
      if sorted == [] {
        NoOperands(relation, keys);
        return None;
      }
      OperandsFit(sorted);
      UnionsInside(sorted, vertical);
      assert vertical !in index.Contents();
      NotOneOperand(sorted, relation, index.Contents().Keys, vertical);
      if |sorted| >= naryIntersectionSize {
        result := IntersectAtOnce(vertical, sorted[0]);
      } else {
        result := IntersectPairwise(sorted);
      }
      if cachingMethod == AllCaching {
        CachedIs(result.value, vertical);
      }
    }

    lemma CachedIs(pli: PositionListIndex, vertical: Vertical)
      requires Valid() && vertical in index.Contents() && IsPliOf(pli, relation, vertical)
      ensures index.Contents()[vertical] == pli
    {
      PliUnique(index.Contents()[vertical], pli, relation, vertical);
    }
  }

  // The unions that an intersection in pairs passes through, with the first n operands.
  ghost function Unions(operands: seq<PositionListIndexRank>, n: nat): set<Vertical>
    requires n <= |operands|
  {
    set i | 2 <= i <= n :: UnionOf(operands[..i])
  }

  lemma UnionsInside(operands: seq<PositionListIndexRank>, vertical: Vertical)
    requires UnionOf(operands) == vertical
    ensures AreInside(Unions(operands, |operands|), vertical)
    ensures |operands| >= 2 ==> vertical in Unions(operands, |operands|)
    ensures forall i :: 0 <= i < |operands| ==> operands[i].vertical <= vertical
  {
    forall k | k in Unions(operands, |operands|) ensures k <= vertical {
      var i :| 2 <= i <= |operands| && k == UnionOf(operands[..i]);
      forall j | 0 <= j < |operands[..i]| ensures operands[..i][j] in operands {
        assert operands[..i][j] == operands[j];
      }
      SubUnion(operands[..i], operands);
    }
    assert operands[..|operands|] == operands;
  }

  // The columns are not cached, so that one operand cannot be all.
  lemma NotOneOperand(operands: seq<PositionListIndexRank>, r: Relation, keys: set<Vertical>, vertical: Vertical)
    requires AreRanks(operands, r, keys) && UnionOf(operands) == vertical && vertical !in keys && operands != []
    ensures |operands| >= 2 && vertical != {}
  {
    UnionsInside(operands, vertical);
    var first := operands[0].vertical;
    assert first in keys && first <= vertical;
    assert vertical == {} ==> first == vertical;
    if |operands| == 1 {
      assert operands == [operands[0]];
      FirstOperand(operands[0], r, keys);
    }
  }

  lemma FewerKeys(ranks: seq<PositionListIndexRank>, r: Relation, keys: set<Vertical>, more: set<Vertical>)
    requires AreRanks(ranks, r, keys) && keys <= more
    ensures AreRanks(ranks, r, more)
  {
    hide IsPliOf;
  }

  lemma EntriesAreCanonical(entries: seq<(Vertical, PositionListIndex)>, contents: map<Vertical, PositionListIndex>,
                            r: Relation, vertical: Vertical)
    requires IsCanonicalCache(contents, r) && ListsEntries(entries, contents, SubsetKeys(contents, vertical))
    ensures forall i :: 0 <= i < |entries| ==>
      entries[i].0 in SubsetKeys(contents, vertical) && IsPliOf(entries[i].1, r, entries[i].0)
    ensures AreInside(SubsetKeys(contents, vertical), vertical) && SubsetKeys(contents, vertical) <= contents.Keys
  {
    hide IsPliOf;
    forall i | 0 <= i < |entries| ensures entries[i].0 in SubsetKeys(contents, vertical) && IsPliOf(entries[i].1, r, entries[i].0) {
      assert entries[i] in entries;
    }
  }

  lemma NoOperands(r: Relation, keys: set<Vertical>)
    ensures AreRanks([], r, keys) && UnionOf([]) == {}
  {
  }
}
