// The ways of generating agree sets and of finding the maximal classes.
module AgreeSetMethods {
  datatype AgreeSetsGenMethod = UsingVectorOfIdSets | UsingMapOfIdSets | UsingGetAgreeSet | UsingMcAndGetAgreeSet
  datatype McGenMethod = UsingHandleEqvClass | UsingHandlePartition | UsingCalculateSupersets
}

// The agree sets of a relation, generated in four ways from the stripped partitions of its columns.
module AgreeSetFactories {
  import opened Relations
  import opened Partitions
  import opened PositionListIndexes
  import opened Transversals
  import opened MaxRepresentations
  import opened SeenFds
  import opened AgreeSetMethods
  import Supersets

  // ----- identifier sets -----

  datatype IdentifierSetValue = IdValue(attribute: nat, clusterIndex: nat)

  ghost predicate AscendingAttributes(data: seq<IdentifierSetValue>) {
    forall i, j :: 0 <= i < j < |data| ==> data[i].attribute < data[j].attribute
  }

  ghost predicate Matches(v: IdentifierSetValue, w: IdentifierSetValue) {
    v == w && v.clusterIndex != SINGLETON_VALUE_ID
  }

  ghost predicate HasMatch(v: IdentifierSetValue, other: seq<IdentifierSetValue>) {
    exists j :: 0 <= j < |other| && Matches(v, other[j])
  }

  // The attributes that both list with the same cluster, which is not the one of singletons.
  ghost function CommonAttributes(data: seq<IdentifierSetValue>, other: seq<IdentifierSetValue>): Vertical {
    set i | 0 <= i < |data| && HasMatch(data[i], other) :: data[i].attribute
  }

  // Merges two lists that ascend by attribute.
  method IntersectIdentifiers(data: seq<IdentifierSetValue>, other: seq<IdentifierSetValue>) returns (intersection: Vertical)
    requires AscendingAttributes(data) && AscendingAttributes(other)
    ensures intersection == CommonAttributes(data, other)
  {
    intersection := {};
    var p, q := 0, 0;
    while p < |data| && q < |other|
      invariant 0 <= p <= |data| && 0 <= q <= |other|
      invariant intersection == CommonAttributes(data[..p], other)
      invariant forall i, j :: p <= i < |data| && 0 <= j < q ==> !Matches(data[i], other[j])
      decreases |data| - p + |other| - q
    {
      CommonStep(data, other, p);
      if data[p].attribute < other[q].attribute {
        p := p + 1;
      } else {
        if other[q].attribute == data[p].attribute
           && data[p].clusterIndex != SINGLETON_VALUE_ID && data[p].clusterIndex == other[q].clusterIndex {
          assert Matches(data[p], other[q]);
          intersection := intersection + {data[p].attribute};
          p := p + 1;
        }
        q := q + 1;
      }
    }
    NoMoreCommon(data, other, p);
  }

  lemma CommonStep(data: seq<IdentifierSetValue>, other: seq<IdentifierSetValue>, p: nat)
    requires p < |data|
    ensures CommonAttributes(data[..p + 1], other) ==
      CommonAttributes(data[..p], other) + if HasMatch(data[p], other) then {data[p].attribute} else {}
  {
    hide HasMatch;
    var before, after := data[..p], data[..p + 1];
    forall a ensures a in CommonAttributes(after, other) <==>
      a in CommonAttributes(before, other) || (HasMatch(data[p], other) && a == data[p].attribute)
    {
      if a in CommonAttributes(before, other) {
        var i :| 0 <= i < p && HasMatch(before[i], other) && before[i].attribute == a;
        assert after[i] == before[i];
      }
      if a in CommonAttributes(after, other) {
        var i :| 0 <= i < p + 1 && HasMatch(after[i], other) && after[i].attribute == a;
        assert i < p ==> before[i] == after[i];
      }
      assert after[p] == data[p];
    }
  }

  lemma NoMoreCommon(data: seq<IdentifierSetValue>, other: seq<IdentifierSetValue>, p: nat)
    requires p <= |data| && forall i :: p <= i < |data| ==> !HasMatch(data[i], other)
    ensures CommonAttributes(data[..p], other) == CommonAttributes(data, other)
  {
    forall a | a in CommonAttributes(data, other) ensures a in CommonAttributes(data[..p], other) {
      var i :| 0 <= i < |data| && HasMatch(data[i], other) && data[i].attribute == a;
      assert data[..p][i] == data[i];
    }
    forall a | a in CommonAttributes(data[..p], other) ensures a in CommonAttributes(data, other) {
      var i :| 0 <= i < p && HasMatch(data[..p][i], other) && data[..p][i].attribute == a;
      assert data[i] == data[..p][i];
    }
  }

  // ----- what the generators have found -----

  lemma AgreeSetSymmetric(r: Relation, i: nat, j: nat)
    requires r.IsRow(i) && r.IsRow(j)
    ensures r.AgreeSet(i, j) == r.AgreeSet(j, i)
  {
  }

  // Every member is the agree set of two different rows.
  ghost predicate AllAreAgreeSets(agreeSets: set<Vertical>, r: Relation) {
    agreeSets <= AgreeSets(r)
  }

  ghost predicate HasPairsOf(agreeSets: set<Vertical>, r: Relation, c: Cluster) {
    forall p, q :: 0 <= p < q < |c| && r.IsRow(c[p]) && r.IsRow(c[q]) ==> r.AgreeSet(c[p], c[q]) in agreeSets
  }

  // Every member is the agree set of two rows of one of the clusters.
  ghost predicate OnlyPairsOf(agreeSets: set<Vertical>, r: Relation, clusters: set<Cluster>) {
    forall s :: s in agreeSets ==> exists c :: c in clusters && IsPairOf(s, r, c)
  }

  ghost predicate IsPairOf(s: Vertical, r: Relation, c: Cluster) {
    exists i, j :: i in c && j in c && i != j && r.IsRow(i) && r.IsRow(j) && s == r.AgreeSet(i, j)
  }

  // What the method may give: the maximal classes, or what some run over the columns leaves.
  ghost predicate IsRepresentation(run: Supersets.Run, columnData: seq<PositionListIndex>, mcGenMethod: McGenMethod) {
    if mcGenMethod == UsingCalculateSupersets then Supersets.RunsTo(columnData, |columnData|, run)
    else run == Supersets.Run(Maximal(AllClasses(columnData)), AllClasses(columnData), {})
  }

  ghost predicate InCommon(clusters: set<Cluster>, i: nat, j: nat) {
    exists c :: c in clusters && i in c && j in c
  }

  ghost predicate InSome(clusters: set<Cluster>, i: nat) {
    exists c :: c in clusters && i in c
  }

  // The pairs of rows that a generator compares, given the representation.
  ghost predicate IsCompared(asGenMethod: AgreeSetsGenMethod, rep: set<Cluster>, r: Relation, i: nat, j: nat) {
    && r.IsRow(i) && r.IsRow(j) && i != j
    && match asGenMethod {
      case UsingVectorOfIdSets => InSome(rep, i) && InSome(rep, j)
      case UsingGetAgreeSet => r.AgreeSet(i, j) != {}
      case UsingMapOfIdSets => InCommon(rep, i, j)
      case UsingMcAndGetAgreeSet => InCommon(rep, i, j)
    }
  }

  ghost function GeneratedAgreeSets(asGenMethod: AgreeSetsGenMethod, rep: set<Cluster>, r: Relation): set<Vertical> {
    set p | p in RowPairs(r) && IsCompared(asGenMethod, rep, r, p.0, p.1) :: r.AgreeSet(p.0, p.1)
  }

  // What a generator may find on columns: the compared pairs, for some run of the method.
  ghost predicate MayFind(columnData: seq<PositionListIndex>, r: Relation, asGenMethod: AgreeSetsGenMethod, mcGenMethod: McGenMethod,
                          agreeSets: set<Vertical>) {
    exists run :: IsRepresentation(run, columnData, mcGenMethod) && agreeSets == GeneratedAgreeSets(asGenMethod, run.rep, r)
  }

  // What the factory may hand out for a relation: the compared pairs and the empty set, for some run of the method.
  ghost predicate MayGenerate(r: Relation, asGenMethod: AgreeSetsGenMethod, mcGenMethod: McGenMethod, agreeSets: set<Vertical>) {
    exists columnData, run :: GeneratedBy(columnData, run, r, asGenMethod, mcGenMethod, agreeSets)
  }

  ghost predicate GeneratedBy(columnData: seq<PositionListIndex>, run: Supersets.Run, r: Relation, asGenMethod: AgreeSetsGenMethod,
                              mcGenMethod: McGenMethod, agreeSets: set<Vertical>) {
    && AreColumnPlis(columnData, r) && IsRepresentation(run, columnData, mcGenMethod)
    && agreeSets == GeneratedAgreeSets(asGenMethod, run.rep, r) + {{}}
  }

  // Every family that the factory may hand out suffices.
  ghost predicate AlwaysSuffices(r: Relation, asGenMethod: AgreeSetsGenMethod, mcGenMethod: McGenMethod) {
    forall agreeSets :: MayGenerate(r, asGenMethod, mcGenMethod, agreeSets) ==> Suffices(agreeSets, r)
  }

  lemma HasPairsOfMore(agreeSets: set<Vertical>, more: set<Vertical>, r: Relation, c: Cluster)
    requires HasPairsOf(agreeSets, r, c) && agreeSets <= more
    ensures HasPairsOf(more, r, c)
  {
  }

  lemma ClassOfPair(columnData: seq<PositionListIndex>, r: Relation, i: nat, j: nat) returns (c: Cluster)
    requires AreColumnPlis(columnData, r) && r.IsRow(i) && r.IsRow(j) && i != j && r.AgreeSet(i, j) != {}
    ensures c in AllClasses(columnData) && i in c && j in c
  {
    var a :| a in r.AgreeSet(i, j);
    assert Together(r, {a}, i, j);
    assert Groups(columnData[a].index, r, {a});
    c :| c in columnData[a].index && i in c;
    assert IsCluster(c, r, {a});
  }

  lemma ClassesAreClasses(columnData: seq<PositionListIndex>, r: Relation)
    requires AreColumnPlis(columnData, r)
    ensures AreClasses(AllClasses(columnData))
    ensures forall c, i :: c in AllClasses(columnData) && i in c ==> r.IsRow(i)
  {
    forall c | c in AllClasses(columnData) ensures |c| >= 2 && Ascending(c) && forall i :: i in c ==> r.IsRow(i) {
      var k :| 0 <= k < |columnData| && c in columnData[k].index;
      assert IsPliOf(columnData[k], r, {k}) && IsCluster(c, r, {k});
    }
  }

  // Two rows of one cluster, in either order.
  lemma PairInCluster(agreeSets: set<Vertical>, r: Relation, c: Cluster, i: nat, j: nat)
    requires HasPairsOf(agreeSets, r, c) && i in c && j in c && i != j && r.IsRow(i) && r.IsRow(j)
    ensures r.AgreeSet(i, j) in agreeSets
  {
    var p :| 0 <= p < |c| && c[p] == i;
    var q :| 0 <= q < |c| && c[q] == j;
    AgreeSetSymmetric(r, i, j);
    assert if p < q then r.AgreeSet(c[p], c[q]) in agreeSets else r.AgreeSet(c[q], c[p]) in agreeSets;
  }

  ghost predicate CoversClasses(clusters: set<Cluster>, columnData: seq<PositionListIndex>) {
    forall c :: c in AllClasses(columnData) ==> exists d :: d in clusters && Within(c, d)
  }

  lemma RowsWithin(c: Cluster, d: Cluster, i: nat, j: nat)
    requires Within(c, d) && i in c && j in c
    ensures i in d && j in d
  {
    assert i in Elements(c) && j in Elements(c);
  }

  lemma AllClassesCover(columnData: seq<PositionListIndex>)
    ensures CoversClasses(AllClasses(columnData), columnData)
  {
    hide AllClasses;
    forall c | c in AllClasses(columnData) ensures exists d :: d in AllClasses(columnData) && Within(c, d) {
      WithinSelf(c);
    }
  }

  lemma MaximalCover(columnData: seq<PositionListIndex>)
    requires AreClasses(AllClasses(columnData))
    ensures CoversClasses(Maximal(AllClasses(columnData)), columnData)
  {
    hide AllClasses, Within, Maximal;
    forall c | c in AllClasses(columnData) ensures exists d :: d in Maximal(AllClasses(columnData)) && Within(c, d) {
      var d := MaximalAbove(c, AllClasses(columnData));
    }
  }

  // ----- the factory -----

  class AgreeSetFactory {
    const relation: Relation
    const columnData: seq<PositionListIndex>
    const probingTables: seq<seq<nat>>

    ghost predicate Valid() {
      AreColumnPlis(columnData, relation) && AreProbingTables(probingTables, relation)
    }

    constructor (relation: Relation, columnData: seq<PositionListIndex>, probingTables: seq<seq<nat>>)
      requires AreColumnPlis(columnData, relation) && AreProbingTables(probingTables, relation)
      ensures Valid() && this.relation == relation && this.columnData == columnData
    {
      this.relation, this.columnData, this.probingTables := relation, columnData, probingTables;
    }

    // The columns in which two different rows lie in the same cluster.
    method GetAgreeSet(tuple1: nat, tuple2: nat) returns (agreeSet: Vertical)
      requires Valid() && relation.IsRow(tuple1) && relation.IsRow(tuple2) && tuple1 != tuple2
      ensures agreeSet == relation.AgreeSet(tuple1, tuple2)
    {
      hide AreColumnPlis;
      agreeSet := {};
      var i := 0;
      while i < relation.numColumns
        invariant i <= relation.numColumns
        invariant agreeSet == set c | c in relation.AgreeSet(tuple1, tuple2) && c < i
      {
        TogetherInColumn(relation, probingTables, i, tuple1, tuple2);
        if probingTables[i][tuple1] != SINGLETON_VALUE_ID && probingTables[i][tuple1] == probingTables[i][tuple2] {
          agreeSet := agreeSet + {i};
        }
        i := i + 1;
      }
    }

    // The clusters of one tuple, column by column.
    method NewIdentifierSet(index: nat) returns (data: seq<IdentifierSetValue>)
      requires Valid() && relation.IsRow(index)
      ensures IsIdentifierSet(data, index)
    {
      hide AreColumnPlis;
      data := [];
      while |data| < relation.numColumns
        invariant |data| <= relation.numColumns
        invariant forall c :: 0 <= c < |data| ==>
          index < |probingTables[c]| && data[c] == IdValue(c, probingTables[c][index])
      {
        assert IsProbingTable(probingTables[|data|], relation, {|data|});
        data := data + [IdValue(|data|, probingTables[|data|][index])];
      }
    }

    ghost predicate IsIdentifierSet(data: seq<IdentifierSetValue>, index: nat)
      requires |probingTables| == relation.numColumns
    {
      |data| == relation.numColumns && forall c :: 0 <= c < |data| ==>
        index < |probingTables[c]| && data[c] == IdValue(c, probingTables[c][index])
    }

    // The intersection of two identifier sets is the agree set of their tuples.
    lemma IdentifiersGiveAgreeSet(data: seq<IdentifierSetValue>, other: seq<IdentifierSetValue>, i: nat, j: nat)
      requires Valid() && relation.IsRow(i) && relation.IsRow(j) && i != j
      requires IsIdentifierSet(data, i) && IsIdentifierSet(other, j)
      ensures AscendingAttributes(data) && AscendingAttributes(other)
      ensures CommonAttributes(data, other) == relation.AgreeSet(i, j)
    {
      hide AreColumnPlis;
      forall c: nat | c < relation.numColumns ensures HasMatch(data[c], other) <==> c in relation.AgreeSet(i, j) {
        TogetherInColumn(relation, probingTables, c, i, j);
        assert data[c] == IdValue(c, probingTables[c][i]) && other[c] == IdValue(c, probingTables[c][j]);
        if HasMatch(data[c], other) {
          var d :| 0 <= d < |other| && Matches(data[c], other[d]);
          assert other[d].attribute == d;
        }
        assert data[c] == other[c] && data[c].clusterIndex != SINGLETON_VALUE_ID ==> Matches(data[c], other[c]);
      }
      forall a ensures a in CommonAttributes(data, other) <==> a in relation.AgreeSet(i, j) {
        if a in CommonAttributes(data, other) {
          var c :| 0 <= c < |data| && HasMatch(data[c], other) && data[c].attribute == a;
          assert c == a;
        }
        if a in relation.AgreeSet(i, j) {
          assert data[a].attribute == a;
        }
      }
    }

    // All pairs of one cluster, compared directly or by their identifier sets.
    method AddPairsOf(cluster: Cluster, byIdentifierSets: bool, agreeSets: set<Vertical>) returns (more: set<Vertical>)
      requires Valid() && AllAreAgreeSets(agreeSets, relation)
      requires Ascending(cluster) && forall i :: i in cluster ==> relation.IsRow(i)
      ensures agreeSets <= more && AllAreAgreeSets(more, relation) && HasPairsOf(more, relation, cluster)
      ensures forall s :: s in more ==> s in agreeSets || IsPairOf(s, relation, cluster)
    {
      hide AgreeSets, Valid, IsPairOf;
      more := agreeSets;
      var p := 0;
      while p < |cluster|
        invariant 0 <= p <= |cluster| && agreeSets <= more && AllAreAgreeSets(more, relation)
        invariant forall s :: s in more ==> s in agreeSets || IsPairOf(s, relation, cluster)
        invariant forall k, l :: 0 <= k < p && k < l < |cluster| && relation.IsRow(cluster[k]) && relation.IsRow(cluster[l]) ==>
          relation.AgreeSet(cluster[k], cluster[l]) in more
      {
        more := AddPairsFrom(cluster, p, byIdentifierSets, more);
        p := p + 1;
      }
    }

    method AddPairsFrom(cluster: Cluster, p: nat, byIdentifierSets: bool, agreeSets: set<Vertical>) returns (more: set<Vertical>)
      requires Valid() && AllAreAgreeSets(agreeSets, relation) && p < |cluster|
      requires Ascending(cluster) && forall i :: i in cluster ==> relation.IsRow(i)
      ensures agreeSets <= more && AllAreAgreeSets(more, relation)
      ensures forall l :: p < l < |cluster| && relation.IsRow(cluster[p]) && relation.IsRow(cluster[l]) ==>
        relation.AgreeSet(cluster[p], cluster[l]) in more
      ensures forall s :: s in more ==> s in agreeSets || IsPairOf(s, relation, cluster)
    {
      hide AgreeSets, Valid;
      more := agreeSets;
      var q := p + 1;
      while q < |cluster|
        invariant p + 1 <= q <= |cluster| && agreeSets <= more && AllAreAgreeSets(more, relation)
        invariant forall s :: s in more ==> s in agreeSets || IsPairOf(s, relation, cluster)
        invariant forall l :: p < l < q && relation.IsRow(cluster[p]) && relation.IsRow(cluster[l]) ==>
          relation.AgreeSet(cluster[p], cluster[l]) in more
      {
        assert cluster[p] in cluster && cluster[q] in cluster && cluster[p] < cluster[q];
        var agreeSet := AgreeSetBy(cluster[p], cluster[q], byIdentifierSets);
        AgreeSetIsListed(relation, cluster[p], cluster[q]);
        assert IsPairOf(agreeSet, relation, cluster);
        more := more + {agreeSet};
        q := q + 1;
      }
    }

    method AgreeSetBy(i: nat, j: nat, byIdentifierSets: bool) returns (agreeSet: Vertical)
      requires Valid() && relation.IsRow(i) && relation.IsRow(j) && i != j
      ensures agreeSet == relation.AgreeSet(i, j)
    {
      if byIdentifierSets {
        var idSet1 := NewIdentifierSet(i);
        var idSet2 := NewIdentifierSet(j);
        IdentifiersGiveAgreeSet(idSet1, idSet2, i, j);
        agreeSet := IntersectIdentifiers(idSet1, idSet2);
      } else {
        agreeSet := GetAgreeSet(i, j);
      }
    }

    method GenPliMaxRepresentation(mcGenMethod: McGenMethod) returns (rep: set<Cluster>, ghost run: Supersets.Run)
      requires Valid()
      ensures IsRepresentation(run, columnData, mcGenMethod) && run.rep == rep && rep <= AllClasses(columnData)
    {
      hide AllClasses, Maximal, Supersets.RunsTo, Within, AreColumnPlis;
      ColumnsFit(columnData, relation);
      MaximalAreClasses(AllClasses(columnData));
      run := Supersets.Run(Maximal(AllClasses(columnData)), AllClasses(columnData), {});
      match mcGenMethod
      case UsingHandleEqvClass => rep := GenMcUsingHandleEqvClass(columnData);
      case UsingHandlePartition => rep := GenMcUsingHandlePartition(columnData);
      case UsingCalculateSupersets =>
        rep := Supersets.GenMcUsingCalculateSupersets(columnData);
        run :| Supersets.RunsTo(columnData, |columnData|, run) && run.rep == rep;
        Supersets.RunCovers(columnData, run);
    }

    // Pairs within the maximal classes, in whatever order those come.
    method PairsOfAll(clusters: set<Cluster>, byIdentifierSets: bool) returns (agreeSets: set<Vertical>)
      requires Valid() && clusters <= AllClasses(columnData)
      ensures AllAreAgreeSets(agreeSets, relation) && OnlyPairsOf(agreeSets, relation, clusters)
      ensures forall c :: c in clusters ==> HasPairsOf(agreeSets, relation, c)
    {
      hide AgreeSets, HasPairsOf, AllClasses, IsPairOf;
      ClassesAreClasses(columnData, relation);
      agreeSets := {};
      var rest := clusters;
      while rest != {}
        invariant rest <= clusters && AllAreAgreeSets(agreeSets, relation) && OnlyPairsOf(agreeSets, relation, clusters)
        invariant forall c :: c in clusters && c !in rest ==> HasPairsOf(agreeSets, relation, c)
        decreases |rest|
      {
        var cluster :| cluster in rest;
        var more := AddPairsOf(cluster, byIdentifierSets, agreeSets);
        forall c | c in clusters && c !in rest ensures HasPairsOf(more, relation, c) {
          HasPairsOfMore(agreeSets, more, relation, c);
        }
        agreeSets := more;
        rest := rest - {cluster};
      }
    }

    // The simplest way: the pairs within every cluster of every column.
    method GenAsUsingGetAgreeSets() returns (agreeSets: set<Vertical>)
      requires Valid()
      ensures forall rep :: agreeSets == GeneratedAgreeSets(UsingGetAgreeSet, rep, relation)
    {
      hide AgreeSets, HasPairsOf, OnlyPairsOf, GeneratedAgreeSets, GeneratedFrom;
      var classes: set<Cluster> := set k, c | 0 <= k < |columnData| && c in columnData[k].index :: c;
      assert classes == AllClasses(columnData);
      agreeSets := PairsOfAll(classes, false);
      PairsAreAll(agreeSets, classes, relation);
      forall rep ensures agreeSets == GeneratedAgreeSets(UsingGetAgreeSet, rep, relation) {
        ClassPairs(columnData, relation, rep);
      }
    }

    // The pairs within the representation, compared directly or by identifier sets.
    method GenAsUsingMc(mcGenMethod: McGenMethod, byIdentifierSets: bool) returns (agreeSets: set<Vertical>)
      requires Valid()
      ensures MayFind(columnData, relation, if byIdentifierSets then UsingMapOfIdSets else UsingMcAndGetAgreeSet, mcGenMethod, agreeSets)
    {
      hide AgreeSets, HasPairsOf, OnlyPairsOf, AllClasses, IsRepresentation, GeneratedFrom, GeneratedAgreeSets;
      var maxRepresentation;
      ghost var run;
      maxRepresentation, run := GenPliMaxRepresentation(mcGenMethod);
      agreeSets := PairsOfAll(maxRepresentation, byIdentifierSets);
      PairsAreAll(agreeSets, maxRepresentation, relation);
      CommonPairs(maxRepresentation, relation);
    }

    // The tuples of the maximal classes, each once, in some order.
    method TuplesOf(maxRepresentation: set<Cluster>) returns (tuples: Cluster)
      requires Valid() && maxRepresentation <= AllClasses(columnData)
      ensures NoDuplicates(tuples) && forall i :: i in tuples <==> exists c :: c in maxRepresentation && i in c
    {
      hide AllClasses;
      tuples := [];
      var rest := maxRepresentation;
      while rest != {}
        invariant rest <= maxRepresentation && NoDuplicates(tuples)
        invariant forall i :: i in tuples <==> exists c :: c in maxRepresentation && c !in rest && i in c
        decreases |rest|
      {
        var cluster :| cluster in rest;
        ghost var before := tuples;
        var p := 0;
        while p < |cluster|
          invariant 0 <= p <= |cluster| && NoDuplicates(tuples)
          invariant forall i :: i in tuples <==> i in before || i in cluster[..p]
        {
          assert cluster[..p + 1] == cluster[..p] + [cluster[p]];
          if cluster[p] !in tuples {
            tuples := tuples + [cluster[p]];
          }
          p := p + 1;
        }
        assert cluster[..p] == cluster;
        rest := rest - {cluster};
      }
    }

    // All pairs of the tuples of the representation, also of tuples that share no class.
    method GenAsUsingVectorOfIdSets(mcGenMethod: McGenMethod) returns (agreeSets: set<Vertical>)
      requires Valid()
      ensures MayFind(columnData, relation, UsingVectorOfIdSets, mcGenMethod, agreeSets)
    {
      hide AgreeSets, AllClasses, IsRepresentation, IsPairOf, GeneratedAgreeSets, GeneratedFrom;
      ClassesAreClasses(columnData, relation);
      var maxRepresentation;
      ghost var run;
      maxRepresentation, run := GenPliMaxRepresentation(mcGenMethod);
      var tuples := TuplesOf(maxRepresentation);
      agreeSets := {};
      var p := 0;
      while p < |tuples|
        invariant 0 <= p <= |tuples| && AllAreAgreeSets(agreeSets, relation)
        invariant forall s :: s in agreeSets ==> IsPairOf(s, relation, tuples)
        invariant forall k, l :: 0 <= k < p && k < l < |tuples| && relation.IsRow(tuples[k]) && relation.IsRow(tuples[l]) ==>
          relation.AgreeSet(tuples[k], tuples[l]) in agreeSets
      {
        agreeSets := AddTuplesFrom(tuples, p, agreeSets, maxRepresentation);
        p := p + 1;
      }
      assert HasPairsOf(agreeSets, relation, tuples) by {
        TuplesHavePairs(tuples, agreeSets, relation);
      }
      PairsAreAll(agreeSets, {tuples}, relation);
      TuplePairs(maxRepresentation, tuples, relation);
    }

    method AddTuplesFrom(tuples: Cluster, p: nat, agreeSets: set<Vertical>, ghost maxRepresentation: set<Cluster>)
      returns (more: set<Vertical>)
      requires Valid() && AllAreAgreeSets(agreeSets, relation) && p < |tuples| && NoDuplicates(tuples)
      requires forall i :: i in tuples ==> relation.IsRow(i)
      ensures agreeSets <= more && AllAreAgreeSets(more, relation)
      ensures forall l :: p < l < |tuples| && relation.IsRow(tuples[p]) && relation.IsRow(tuples[l]) ==>
        relation.AgreeSet(tuples[p], tuples[l]) in more
      ensures forall s :: s in more ==> s in agreeSets || IsPairOf(s, relation, tuples)
    {
      hide AgreeSets, Valid;
      more := agreeSets;
      var q := p + 1;
      while q < |tuples|
        invariant p + 1 <= q <= |tuples| && agreeSets <= more && AllAreAgreeSets(more, relation)
        invariant forall s :: s in more ==> s in agreeSets || IsPairOf(s, relation, tuples)
        invariant forall l :: p < l < q && relation.IsRow(tuples[p]) && relation.IsRow(tuples[l]) ==>
          relation.AgreeSet(tuples[p], tuples[l]) in more
      {
        assert tuples[p] in tuples && tuples[q] in tuples && tuples[p] != tuples[q];
        var agreeSet := AgreeSetBy(tuples[p], tuples[q], true);
        AgreeSetIsListed(relation, tuples[p], tuples[q]);
        assert IsPairOf(agreeSet, relation, tuples);
        more := more + {agreeSet};
        q := q + 1;
      }
    }

    // Exactly the agree sets of the pairs that the method compares, and the empty set.
    method GenAgreeSets(asGenMethod: AgreeSetsGenMethod, mcGenMethod: McGenMethod) returns (agreeSets: set<Vertical>)
      requires Valid()
      ensures MayGenerate(relation, asGenMethod, mcGenMethod, agreeSets)
    {
      hide AgreeSets, IsRepresentation, GeneratedAgreeSets;
      match asGenMethod {
        case UsingVectorOfIdSets => agreeSets := GenAsUsingVectorOfIdSets(mcGenMethod);
        case UsingMapOfIdSets => agreeSets := GenAsUsingMc(mcGenMethod, true);
        case UsingMcAndGetAgreeSet => agreeSets := GenAsUsingMc(mcGenMethod, false);
        case UsingGetAgreeSet =>
          agreeSets := GenAsUsingGetAgreeSets();
          ghost var some := SomeRepresentation(columnData, mcGenMethod);
      }
      ghost var run :| IsRepresentation(run, columnData, mcGenMethod) && agreeSets == GeneratedAgreeSets(asGenMethod, run.rep, relation);
      agreeSets := agreeSets + {{}};
      assert GeneratedBy(columnData, run, relation, asGenMethod, mcGenMethod, agreeSets);
    }
  }

  // The tables of all columns, as the column data keeps them.
  method CreateProbingTables(r: Relation, columnData: seq<PositionListIndex>) returns (tables: seq<seq<nat>>)
    requires AreColumnPlis(columnData, r)
    ensures AreProbingTables(tables, r)
  {
    hide IsPliOf, IsProbingTable;
    tables := [];
    while |tables| < r.numColumns
      invariant |tables| <= r.numColumns
      invariant forall c :: 0 <= c < |tables| ==> IsProbingTable(tables[c], r, {c})
    {
      var table := CalculateAndGetProbingTable(columnData[|tables|], r, {|tables|});
      tables := tables + [table];
    }
  }

  // What an engine gets from a factory of its own.
  method FactoryAgreeSets(r: Relation, columnData: seq<PositionListIndex>, asGenMethod: AgreeSetsGenMethod, mcGenMethod: McGenMethod)
    returns (agreeSets: set<Vertical>)
    requires AreColumnPlis(columnData, r)
    ensures MayGenerate(r, asGenMethod, mcGenMethod, agreeSets) && AreSomeAgreeSets(agreeSets, r)
  {
    hide AreColumnPlis, AreProbingTables, GeneratedAgreeSets, IsRepresentation, AreSomeAgreeSets;
    var tables := CreateProbingTables(r, columnData);
    var factory := new AgreeSetFactory(r, columnData, tables);
    agreeSets := factory.GenAgreeSets(asGenMethod, mcGenMethod);
    ghost var some, run :| GeneratedBy(some, run, r, asGenMethod, mcGenMethod, agreeSets);
    GeneratedAreAgreeSets(r, asGenMethod, run.rep);
  }

  lemma GeneratedAreAgreeSets(r: Relation, asGenMethod: AgreeSetsGenMethod, rep: set<Cluster>)
    ensures AreSomeAgreeSets(GeneratedAgreeSets(asGenMethod, rep, r) + {{}}, r)
  {
    hide IsCompared;
  }

  lemma SomeRepresentation(columnData: seq<PositionListIndex>, mcGenMethod: McGenMethod) returns (run: Supersets.Run)
    ensures IsRepresentation(run, columnData, mcGenMethod)
  {
    if mcGenMethod == UsingCalculateSupersets {
      Supersets.RunsFirst(columnData);
      run := Supersets.RunContinues(columnData, 0, Supersets.Run({}, {}, {}));
    } else {
      run := Supersets.Run(Maximal(AllClasses(columnData)), AllClasses(columnData), {});
    }
  }

  // ----- the compared pairs -----

  ghost function GeneratedFrom(clusters: set<Cluster>, r: Relation): set<Vertical> {
    set p | p in RowPairs(r) && InCommon(clusters, p.0, p.1) :: r.AgreeSet(p.0, p.1)
  }

  lemma PairsAreAll(agreeSets: set<Vertical>, clusters: set<Cluster>, r: Relation)
    requires OnlyPairsOf(agreeSets, r, clusters) && forall c :: c in clusters ==> HasPairsOf(agreeSets, r, c)
    ensures agreeSets == GeneratedFrom(clusters, r)
  {
    hide HasPairsOf;
    forall s | s in agreeSets ensures s in GeneratedFrom(clusters, r) {
      var c :| c in clusters && IsPairOf(s, r, c);
      var i, j :| i in c && j in c && i != j && r.IsRow(i) && r.IsRow(j) && s == r.AgreeSet(i, j);
      assert (i, j) in RowPairs(r) && InCommon(clusters, i, j);
    }
    forall p | p in RowPairs(r) && InCommon(clusters, p.0, p.1) ensures r.AgreeSet(p.0, p.1) in agreeSets {
      var c :| c in clusters && p.0 in c && p.1 in c;
      PairInCluster(agreeSets, r, c, p.0, p.1);
    }
  }

  lemma CommonPairs(rep: set<Cluster>, r: Relation)
    ensures GeneratedFrom(rep, r) == GeneratedAgreeSets(UsingMapOfIdSets, rep, r) == GeneratedAgreeSets(UsingMcAndGetAgreeSet, rep, r)
  {
    hide InCommon;
    SamePairs(r, UsingMapOfIdSets, rep, rep);
    SamePairs(r, UsingMcAndGetAgreeSet, rep, rep);
  }

  lemma SamePairs(r: Relation, asGenMethod: AgreeSetsGenMethod, rep: set<Cluster>, clusters: set<Cluster>)
    requires forall p :: p in RowPairs(r) ==> (IsCompared(asGenMethod, rep, r, p.0, p.1) <==> InCommon(clusters, p.0, p.1))
    ensures GeneratedFrom(clusters, r) == GeneratedAgreeSets(asGenMethod, rep, r)
  {
    hide IsCompared, InCommon;
  }

  lemma TuplePairs(rep: set<Cluster>, tuples: Cluster, r: Relation)
    requires forall i :: i in tuples <==> exists c :: c in rep && i in c
    ensures GeneratedFrom({tuples}, r) == GeneratedAgreeSets(UsingVectorOfIdSets, rep, r)
  {
    forall p | p in RowPairs(r) ensures IsCompared(UsingVectorOfIdSets, rep, r, p.0, p.1) <==> InCommon({tuples}, p.0, p.1) {
      assert p.0 in tuples <==> InSome(rep, p.0);
      assert p.1 in tuples <==> InSome(rep, p.1);
      assert InCommon({tuples}, p.0, p.1) <==> p.0 in tuples && p.1 in tuples;
    }
    SamePairs(r, UsingVectorOfIdSets, rep, {tuples});
  }

  // Two rows share a class of some column exactly when they agree somewhere.
  lemma ClassPairs(columnData: seq<PositionListIndex>, r: Relation, rep: set<Cluster>)
    requires AreColumnPlis(columnData, r)
    ensures GeneratedFrom(AllClasses(columnData), r) == GeneratedAgreeSets(UsingGetAgreeSet, rep, r)
  {
    hide AllClasses, AreColumnPlis;
    forall p | p in RowPairs(r) ensures r.AgreeSet(p.0, p.1) != {} <==> InCommon(AllClasses(columnData), p.0, p.1) {
      if r.AgreeSet(p.0, p.1) != {} {
        var c := ClassOfPair(columnData, r, p.0, p.1);
      }
      if InCommon(AllClasses(columnData), p.0, p.1) {
        var c :| c in AllClasses(columnData) && p.0 in c && p.1 in c;
        ClassMeansAgreement(columnData, r, c, p.0, p.1);
      }
    }
    SamePairs(r, UsingGetAgreeSet, rep, AllClasses(columnData));
  }

  lemma ClassMeansAgreement(columnData: seq<PositionListIndex>, r: Relation, c: Cluster, i: nat, j: nat)
    requires AreColumnPlis(columnData, r) && c in AllClasses(columnData) && i in c && j in c && r.IsRow(i) && r.IsRow(j)
    ensures r.AgreeSet(i, j) != {}
  {
    var k :| 0 <= k < |columnData| && c in columnData[k].index;
    assert IsPliOf(columnData[k], r, {k}) && IsCluster(c, r, {k});
    assert Together(r, {k}, i, j);
    assert k in r.AgreeSet(i, j);
  }

  // ----- which methods always suffice -----

  // With a representation that covers all classes every method compares every pair of rows that agree somewhere.
  lemma CoveringSuffices(columnData: seq<PositionListIndex>, r: Relation, asGenMethod: AgreeSetsGenMethod, rep: set<Cluster>)
    requires AreColumnPlis(columnData, r) && CoversClasses(rep, columnData)
    ensures Suffices(GeneratedAgreeSets(asGenMethod, rep, r) + {{}}, r)
  {
    hide AreColumnPlis, AllClasses, Within;
    var agreeSets := GeneratedAgreeSets(asGenMethod, rep, r) + {{}};
    forall n, a | n in AgreeSets(r) && a in r.Columns() && a !in n ensures LiesInside(n, agreeSets, a) {
      var p :| p in RowPairs(r) && n == r.AgreeSet(p.0, p.1);
      if n != {} {
        var c := ClassOfPair(columnData, r, p.0, p.1);
        var d :| d in rep && Within(c, d);
        RowsWithin(c, d, p.0, p.1);
        assert InCommon(rep, p.0, p.1) && InSome(rep, p.0) && InSome(rep, p.1);
        assert IsCompared(asGenMethod, rep, r, p.0, p.1);
      }
      assert n in agreeSets && n <= n;
    }
  }

  // Only the third way of finding the maximal classes can fall short, and only for methods that use them.
  lemma MethodsThatSuffice(r: Relation, asGenMethod: AgreeSetsGenMethod, mcGenMethod: McGenMethod)
    requires mcGenMethod != UsingCalculateSupersets || asGenMethod == UsingGetAgreeSet
    ensures AlwaysSuffices(r, asGenMethod, mcGenMethod)
  {
    hide AreColumnPlis, Suffices, GeneratedAgreeSets, AllClasses, Maximal;
    forall agreeSets | MayGenerate(r, asGenMethod, mcGenMethod, agreeSets) ensures Suffices(agreeSets, r) {
      var columnData, run :| GeneratedBy(columnData, run, r, asGenMethod, mcGenMethod, agreeSets);
      ClassesAreClasses(columnData, r);
      if mcGenMethod != UsingCalculateSupersets {
        MaximalCover(columnData);
        CoveringSuffices(columnData, r, asGenMethod, run.rep);
      } else {
        AllClassesCover(columnData);
        CoveringSuffices(columnData, r, asGenMethod, AllClasses(columnData));
        NoRepresentation(r, run.rep, AllClasses(columnData));
      }
    }
  }

  lemma NoRepresentation(r: Relation, rep: set<Cluster>, other: set<Cluster>)
    ensures GeneratedAgreeSets(UsingGetAgreeSet, rep, r) == GeneratedAgreeSets(UsingGetAgreeSet, other, r)
  {
    forall p | p in RowPairs(r)
      ensures IsCompared(UsingGetAgreeSet, rep, r, p.0, p.1) <==> IsCompared(UsingGetAgreeSet, other, r, p.0, p.1)
    {
    }
    hide IsCompared;
  }

  lemma ColumnsFit(columnData: seq<PositionListIndex>, r: Relation)
    requires AreColumnPlis(columnData, r)
    ensures Supersets.AreColumns(columnData)
  {
    hide AllClasses;
    ClassesAreClasses(columnData, r);
    forall k | 0 <= k < |columnData|
      ensures Supersets.AreDisjoint(columnData[k].index) && (columnData[k].size == 0 <==> columnData[k].index == [])
    {
      assert IsPliOf(columnData[k], r, {k});
      IndexIsDisjoint(columnData[k], r, {k});
    }
  }

  // The clusters of an index are disjoint, and it has none exactly when its size is zero.
  lemma IndexIsDisjoint(pli: PositionListIndex, r: Relation, x: Vertical)
    requires IsPliOf(pli, r, x)
    ensures Supersets.AreDisjoint(pli.index) && (pli.size == 0 <==> pli.index == [])
  {
    var index := pli.index;
    forall k | 0 <= k < |index| ensures index[k] != [] && Ascending(index[k]) {
      assert index[k] in index && IsCluster(index[k], r, x);
    }
    forall k, l | 0 <= k < l < |index| ensures Elements(index[k]) !! Elements(index[l]) {
      assert index[k] in index && index[l] in index;
      if i :| i in index[k] && i in index[l] {
        SameCluster(index[k], index[l], r, x, i);
      }
    }
    assert index != [] ==> |index[0]| > 0;
  }

  lemma SameCluster(c: Cluster, d: Cluster, r: Relation, x: Vertical, i: nat)
    requires IsCluster(c, r, x) && IsCluster(d, r, x) && i in c && i in d
    ensures c == d
  {
    assert forall j :: j in c <==> j in d;
    AscendingUnique(c, d);
  }

  lemma TogetherInColumn(r: Relation, tables: seq<seq<nat>>, c: nat, i: nat, j: nat)
    requires AreProbingTables(tables, r) && c < r.numColumns && r.IsRow(i) && r.IsRow(j) && i != j
    ensures i < |tables[c]| && j < |tables[c]|
    ensures c in r.AgreeSet(i, j) <==> tables[c][i] == tables[c][j] != SINGLETON_VALUE_ID
  {
    assert IsProbingTable(tables[c], r, {c});
    assert Together(r, {c}, i, j) <==> c in r.AgreeSet(i, j);
  }

  lemma MaximalAreClasses(classes: set<Cluster>)
    ensures Maximal(classes) <= classes
  {
  }

  lemma TuplesHavePairs(tuples: Cluster, agreeSets: set<Vertical>, r: Relation)
    requires forall k, l :: 0 <= k < |tuples| && k < l < |tuples| && r.IsRow(tuples[k]) && r.IsRow(tuples[l]) ==>
      r.AgreeSet(tuples[k], tuples[l]) in agreeSets
    ensures HasPairsOf(agreeSets, r, tuples)
  {
  }

  // ----- the third way, on the columns -----

  lemma ColumnsUnique(columnData: seq<PositionListIndex>, other: seq<PositionListIndex>, r: Relation)
    requires AreColumnPlis(columnData, r) && AreColumnPlis(other, r)
    ensures columnData == other
  {
    forall c | 0 <= c < |columnData| ensures columnData[c] == other[c] {
      PliUnique(columnData[c], other[c], r, {c});
    }
  }

  // Whether every run suffices is a matter of the columns: every way through them must leave classes whose compared pairs
  // suffice.
  lemma SufficesOnColumns(columnData: seq<PositionListIndex>, r: Relation, asGenMethod: AgreeSetsGenMethod)
    requires AreColumnPlis(columnData, r)
    ensures AlwaysSuffices(r, asGenMethod, UsingCalculateSupersets) <==>
      forall run: Supersets.Run :: Supersets.RunsTo(columnData, |columnData|, run) ==>
        Suffices(GeneratedAgreeSets(asGenMethod, run.rep, r) + {{}}, r)
  {
    hide AreColumnPlis, Supersets.RunsTo, GeneratedAgreeSets, Suffices;
    if AlwaysSuffices(r, asGenMethod, UsingCalculateSupersets) {
      forall run: Supersets.Run | Supersets.RunsTo(columnData, |columnData|, run)
        ensures Suffices(GeneratedAgreeSets(asGenMethod, run.rep, r) + {{}}, r)
      {
        var agreeSets := GeneratedAgreeSets(asGenMethod, run.rep, r) + {{}};
        assert GeneratedBy(columnData, run, r, asGenMethod, UsingCalculateSupersets, agreeSets);
        assert MayGenerate(r, asGenMethod, UsingCalculateSupersets, agreeSets);
      }
    }
    if forall run: Supersets.Run :: Supersets.RunsTo(columnData, |columnData|, run) ==>
        Suffices(GeneratedAgreeSets(asGenMethod, run.rep, r) + {{}}, r) {
      forall agreeSets | MayGenerate(r, asGenMethod, UsingCalculateSupersets, agreeSets) ensures Suffices(agreeSets, r) {
        var other, run :| GeneratedBy(other, run, r, asGenMethod, UsingCalculateSupersets, agreeSets);
        ColumnsUnique(columnData, other, r);
      }
    }
  }

  // Columns of which no pass can lose a class suffice.
  lemma NoLossSuffices(columnData: seq<PositionListIndex>, r: Relation, asGenMethod: AgreeSetsGenMethod)
    requires AreColumnPlis(columnData, r) && forall n: nat, k: nat :: !Supersets.CanLose(columnData, n, k)
    ensures AlwaysSuffices(r, asGenMethod, UsingCalculateSupersets)
  {
    hide *;
    SufficesOnColumns(columnData, r, asGenMethod);
    Supersets.LostInSomeRun(columnData);
    forall run: Supersets.Run | Supersets.RunsTo(columnData, |columnData|, run)
      ensures Suffices(GeneratedAgreeSets(asGenMethod, run.rep, r) + {{}}, r)
    {
      LosslessCovers(columnData, r, run);
      CoveringSuffices(columnData, r, asGenMethod, run.rep);
    }
  }

  lemma LosslessCovers(columnData: seq<PositionListIndex>, r: Relation, run: Supersets.Run)
    requires AreColumnPlis(columnData, r) && Supersets.RunsTo(columnData, |columnData|, run) && run.lost == {}
    ensures CoversClasses(run.rep, columnData)
  {
    hide AreColumnPlis, AllClasses, Within, Supersets.RunsTo, Supersets.AreColumns;
    ColumnsFit(columnData, r);
    Supersets.RunCovers(columnData, run);
    forall c | c in AllClasses(columnData) ensures exists d :: d in run.rep && Within(c, d) {
      assert Supersets.Covered(c, run.rep);
    }
  }
}
