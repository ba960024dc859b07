// The engines together: the agree sets fed to FastFDs and Depminer, and agreement between the engines.
module Engines {
  import opened Relations
  import opened FdLists
  import opened Transversals
  import opened PositionListIndexes
  import opened AgreeSetFactories
  import opened AgreeSetMethods
  import opened AidTheory
  import opened AidSampling
  import opened MaxRepresentations
  import opened Partitions
  import opened SeenFds
  import opened Options
  import AidEngine
  import AttributeMasks
  import Depminer
  import FastFds
  import Fdep
  import FdTree
  import Fun
  import Supersets
  import Tane

  // ----- FastFDs and Depminer -----

  // What FastFDs and Depminer may list, with the agree sets that the factory may hand out.
  ghost predicate MayList(r: Relation, asGenMethod: AgreeSetsGenMethod, mcGenMethod: McGenMethod, maxLhs: nat, fds: seq<Fd>) {
    exists agreeSets :: MayGenerate(r, asGenMethod, mcGenMethod, agreeSets) && ListsSeenFds(fds, r, agreeSets, maxLhs)
  }

  method RunFastFds(r: Relation, maxLhs: nat, asGenMethod: AgreeSetsGenMethod, mcGenMethod: McGenMethod)
    returns (fds: seq<Fd>, ghost agreeSets: set<Vertical>)
    ensures MayGenerate(r, asGenMethod, mcGenMethod, agreeSets) && ListsSeenFds(fds, r, agreeSets, maxLhs)
    ensures MayList(r, asGenMethod, mcGenMethod, maxLhs, fds)
    ensures AlwaysSuffices(r, asGenMethod, mcGenMethod) ==> ListsMinimalFdsUpTo(fds, r, maxLhs)
    ensures maxLhs == r.numColumns ==> (ListsMinimalFds(fds, r) <==> Suffices(agreeSets, r))
  {
    hide AreColumnPlis, ListsMinimalFdsUpTo, ListsMinimalFds, ListsSeenFds, Suffices, AreSomeAgreeSets, MayGenerate;
    var columnData := CreateColumnData(r);
    var engine := new FastFds.FastFDs(r, columnData, maxLhs, asGenMethod, mcGenMethod);
    agreeSets := engine.ExecuteInternal();
    fds := engine.fdCollection;
    if maxLhs == r.numColumns {
      ExactWhenSufficient(fds, r, agreeSets);
    }
  }

  method RunDepminer(r: Relation, asGenMethod: AgreeSetsGenMethod, mcGenMethod: McGenMethod)
    returns (fds: seq<Fd>, ghost agreeSets: set<Vertical>)
    requires r.numColumns <= Depminer.NO_INDEX
    ensures MayGenerate(r, asGenMethod, mcGenMethod, agreeSets) && ListsSeenFds(fds, r, agreeSets, r.numColumns)
    ensures MayList(r, asGenMethod, mcGenMethod, r.numColumns, fds)
    ensures ListsMinimalFds(fds, r) <==> Suffices(agreeSets, r)
  {
    hide AreColumnPlis, ListsMinimalFds, ListsSeenFds, Suffices, AreSomeAgreeSets, MayGenerate;
    var columnData := CreateColumnData(r);
    var engine := new Depminer.Depminer(r, columnData, asGenMethod, mcGenMethod);
    agreeSets := engine.ExecuteInternal();
    fds := engine.fdCollection;
  }

  lemma GeneratedAreSome(r: Relation, asGenMethod: AgreeSetsGenMethod, mcGenMethod: McGenMethod, agreeSets: set<Vertical>)
    requires MayGenerate(r, asGenMethod, mcGenMethod, agreeSets)
    ensures AreSomeAgreeSets(agreeSets, r)
  {
    hide AreColumnPlis, IsRepresentation, GeneratedAgreeSets, AreSomeAgreeSets;
    var columnData, run :| GeneratedBy(columnData, run, r, asGenMethod, mcGenMethod, agreeSets);
    GeneratedAreAgreeSets(r, asGenMethod, run.rep);
  }

  // Whatever the agree sets let appear can be listed.
  lemma SomeList(r: Relation, agreeSets: set<Vertical>, maxLhs: nat) returns (fds: seq<Fd>)
    ensures ListsSeenFds(fds, r, agreeSets, maxLhs)
  {
    hide ListsSeenFds;
    fds := Listing(SeenFdsBelow(r, agreeSets, r.numColumns, maxLhs));
    AllColumns(fds, r, agreeSets, maxLhs);
  }

  lemma {:induction false} Listing(set_: set<Fd>) returns (fds: seq<Fd>)
    ensures Appended(fds, [], set_)
    decreases set_
  {
    if set_ == {} {
      fds := [];
    } else {
      var d :| d in set_;
      var others := Listing(set_ - {d});
      fds := others + [d];
      AppendOne(others, [], set_ - {d}, d);
      assert set_ - {d} + {d} == set_;
    }
  }

  // Whatever an engine may list is right if and only if every family that the factory may hand out suffices.
  lemma RightWhenAlwaysSufficient(r: Relation, asGenMethod: AgreeSetsGenMethod, mcGenMethod: McGenMethod)
    ensures (forall fds :: MayList(r, asGenMethod, mcGenMethod, r.numColumns, fds) ==> ListsMinimalFds(fds, r)) <==>
      AlwaysSuffices(r, asGenMethod, mcGenMethod)
  {
    hide ListsMinimalFds, ListsSeenFds, Suffices, MayGenerate, AreSomeAgreeSets;
    if AlwaysSuffices(r, asGenMethod, mcGenMethod) {
      forall fds | MayList(r, asGenMethod, mcGenMethod, r.numColumns, fds) ensures ListsMinimalFds(fds, r) {
        var agreeSets :| MayGenerate(r, asGenMethod, mcGenMethod, agreeSets) && ListsSeenFds(fds, r, agreeSets, r.numColumns);
        GeneratedAreSome(r, asGenMethod, mcGenMethod, agreeSets);
        ExactWhenSufficient(fds, r, agreeSets);
      }
    }
    if forall fds :: MayList(r, asGenMethod, mcGenMethod, r.numColumns, fds) ==> ListsMinimalFds(fds, r) {
      forall agreeSets | MayGenerate(r, asGenMethod, mcGenMethod, agreeSets) ensures Suffices(agreeSets, r) {
        var fds := SomeList(r, agreeSets, r.numColumns);
        assert MayList(r, asGenMethod, mcGenMethod, r.numColumns, fds);
        GeneratedAreSome(r, asGenMethod, mcGenMethod, agreeSets);
        ExactWhenSufficient(fds, r, agreeSets);
      }
    }
  }

  // For the default ways this is a matter of the columns: every way through them must leave classes whose pairs suffice.
  lemma DefaultsRightOnColumns(r: Relation, columnData: seq<PositionListIndex>)
    requires AreColumnPlis(columnData, r)
    ensures (forall fds :: MayList(r, UsingMapOfIdSets, UsingCalculateSupersets, r.numColumns, fds) ==> ListsMinimalFds(fds, r)) <==>
      forall run: Supersets.Run :: Supersets.RunsTo(columnData, |columnData|, run) ==>
        Suffices(GeneratedAgreeSets(UsingMapOfIdSets, run.rep, r) + {{}}, r)
  {
    hide *;
    RightWhenAlwaysSufficient(r, UsingMapOfIdSets, UsingCalculateSupersets);
    SufficesOnColumns(columnData, r, UsingMapOfIdSets);
  }

  // ----- the other engines -----

  method RunTane(r: Relation, maxLhs: nat) returns (fds: seq<Fd>)
    requires maxLhs <= Tane.MAX_UNSIGNED && r.numColumns < Tane.MAX_UNSIGNED
    ensures ListsMinimalFdsUpTo(fds, r, maxLhs) <==> |r.rows| >= 2 || r.numColumns == 0
  {
    hide AreColumnPlis, ListsMinimalFdsUpTo;
    var columnData := CreateColumnData(r);
    var engine := new Tane.Tane(r, columnData, maxLhs);
    engine.ExecuteInternal();
    fds := engine.fdCollection;
  }

  method RunFun(r: Relation) returns (fds: seq<Fd>)
    ensures ListsMinimalFds(fds, r) <==> |r.rows| > 0 || r.numColumns == 0
  {
    hide AreColumnPlis, ListsMinimalFds;
    var columnData := CreateColumnData(r);
    var engine := new Fun.FUN(r, columnData);
    engine.ExecuteInternal();
    fds := engine.fdCollection;
  }

  // The relation as FDep and AID read it: they compare the values themselves, so that nulls are equal.
  function WithEqualNulls(r: Relation): Relation {
    Relation(r.numColumns, r.rows, true)
  }

  // None when the attribute mask of FDep overflows.
  method RunFdep(r: Relation) returns (fds: Option<seq<Fd>>)
    requires r.numColumns < FdTree.MAX_ATTR_NUM
    ensures fds.Some? <==> r.numColumns < AttributeMasks.MASK_LIMIT || |r.rows| < 2
    ensures fds.Some? ==> ListsMinimalFds(fds.value, WithEqualNulls(r))
  {
    hide ListsMinimalFds;
    var engine := new Fdep.FDep(r.numColumns, r.rows);
    var defined := engine.ExecuteInternal();
    fds := if defined then Some(engine.fdCollection) else None;
  }

  // What AID lists is decided by the sample, which is a function of the rows.
  ghost function SampleOf(r: Relation): set<Vertical> {
    Sampled(r, Rounds(r))
  }

  method RunAid(r: Relation) returns (fds: seq<Fd>)
    ensures SampleOf(WithEqualNulls(r)) <= AgreeSets(WithEqualNulls(r)) && InvertsSample(fds, WithEqualNulls(r), SampleOf(WithEqualNulls(r)))
    ensures r.numColumns > 0 ==> (ListsMinimalFds(fds, WithEqualNulls(r)) <==>
      |r.rows| > 0 && SampleSuffices(WithEqualNulls(r), SampleOf(WithEqualNulls(r))))
    ensures r.numColumns > 0 && |r.rows| > 0 && ValuesOccurAtMost(WithEqualNulls(r), 12) ==> ListsMinimalFds(fds, WithEqualNulls(r))
  {
    hide InvertsSample, AgreeSets, ListsMinimalFds, SampleSuffices, ValuesOccurAtMost, Sampled, Rounds;
    var engine := new AidEngine.Aid(WithEqualNulls(r));
    engine.ExecuteInternal();
    fds := engine.fdCollection;
  }

  // On a table in which two values occur thirteen times AID lists a dependency that does not hold.
  method AidMisses() returns (fds: seq<Fd>)
    ensures ValuesOccurAtMost(ThirteenTimes(), 13)
    ensures !ListsMinimalFds(fds, ThirteenTimes()) && exists d :: d in fds && !Holds(ThirteenTimes(), d.lhs, d.rhs)
  {
    hide ListsMinimalFds, Holds, InvertsSample, SampleSuffices, AgreeSets, ValuesOccurAtMost, Sampled, Rounds;
    var r := ThirteenTimes();
    fds := RunAid(r);
    assert WithEqualNulls(r) == r;
    ThirteenTimesMiss();
    ExactWhenAllHold(fds, r, SampleOf(r));
  }

  // ----- agreement -----

  lemma {:induction false} CountsAreOne<T>(s: seq<T>, x: T)
    requires NoDuplicates(s)
    ensures multiset(s)[x] == if x in s then 1 else 0
  {
    if s != [] {
      var init, last := s[..|s| - 1], s[|s| - 1];
      assert s == init + [last];
      CountsAreOne(init, x);
      assert last !in init;
    }
  }

  // A list is a permutation of a list of the minimal dependencies exactly when it is one itself.
  lemma SameDependencies(p: seq<Fd>, q: seq<Fd>, r: Relation)
    requires ListsMinimalFds(q, r)
    ensures multiset(p) == multiset(q) <==> ListsMinimalFds(p, r)
  {
    if ListsMinimalFds(p, r) {
      forall d: Fd ensures multiset(p)[d] == multiset(q)[d] {
        assert d == Fd(d.lhs, d.rhs);
        CountsAreOne(p, d);
        CountsAreOne(q, d);
      }
    }
    if multiset(p) == multiset(q) {
      forall d: Fd ensures d in p <==> d in q {
        assert d in multiset(p) <==> d in multiset(q);
      }
      forall d: Fd ensures multiset(p)[d] <= 1 {
        CountsAreOne(q, d);
      }
      OnceEach(p);
    }
  }

  lemma {:induction false} OnceEach<T(!new)>(s: seq<T>)
    requires forall x: T :: multiset(s)[x] <= 1
    ensures NoDuplicates(s)
  {
    if s != [] {
      var init, last := s[..|s| - 1], s[|s| - 1];
      assert s == init + [last] && multiset(s) == multiset(init) + multiset{last};
      forall x: T ensures multiset(init)[x] <= 1 {
        assert multiset(s)[x] <= 1;
      }
      OnceEach(init);
      assert multiset(s)[last] <= 1 && last !in multiset(init);
    }
  }

  // On every relation each exact engine lists the minimal dependencies under a condition of its own, and the lists that do
  // are permutations of each other: FUN exactly when there are rows, TANE exactly when there are two (or no columns at
  // all), FastFDs and Depminer whenever the agree sets that the factory may hand out suffice, as they always do unless the
  // default way looks for the maximal classes. FDep, where its mask does not overflow, and AID read nulls as equal; AID
  // registers something inside each dependency, and exactly the dependencies when its sample suffices.
  method EnginesAgree(r: Relation, asGenMethod: AgreeSetsGenMethod, mcGenMethod: McGenMethod)
    returns (tane: seq<Fd>, fdep: Option<seq<Fd>>, fun: seq<Fd>, fastFds: seq<Fd>, depminer: seq<Fd>, aid: seq<Fd>)
    requires r.numColumns < Tane.MAX_UNSIGNED && r.numColumns < FdTree.MAX_ATTR_NUM && r.numColumns <= Depminer.NO_INDEX
    ensures MayList(r, asGenMethod, mcGenMethod, r.numColumns, fastFds) && MayList(r, asGenMethod, mcGenMethod, r.numColumns, depminer)
    ensures AlwaysSuffices(r, asGenMethod, mcGenMethod) ==> ListsMinimalFds(fastFds, r) && multiset(fastFds) == multiset(depminer)
    ensures mcGenMethod != UsingCalculateSupersets || asGenMethod == UsingGetAgreeSet ==> AlwaysSuffices(r, asGenMethod, mcGenMethod)
    ensures |r.rows| > 0 || r.numColumns == 0 <==> ListsMinimalFds(fun, r)
    ensures |r.rows| >= 2 || r.numColumns == 0 <==> ListsMinimalFds(tane, r)
    ensures |r.rows| > 0 && AlwaysSuffices(r, asGenMethod, mcGenMethod) ==> multiset(fun) == multiset(fastFds)
    ensures |r.rows| >= 2 ==> multiset(tane) == multiset(fun)
    ensures fdep.Some? <==> r.numColumns < AttributeMasks.MASK_LIMIT || |r.rows| < 2
    ensures fdep.Some? ==> ListsMinimalFds(fdep.value, WithEqualNulls(r))
    ensures fdep.Some? && r.nullEqNull && |r.rows| > 0 ==> multiset(fdep.value) == multiset(fun)
    ensures |r.rows| > 0 && r.nullEqNull ==> forall d :: d in fun ==> exists y :: y <= d.lhs && Fd(y, d.rhs) in aid
    ensures |r.rows| > 0 && r.nullEqNull && r.numColumns > 0 ==> (multiset(aid) == multiset(fun) <==> SampleSuffices(r, SampleOf(r)))
  {
    hide ListsMinimalFds, ListsMinimalFdsUpTo, InvertsSample, AgreeSets, Suffices, ListsSeenFds, MayGenerate, MayList;
    hide SampleSuffices, SampleOf, ValuesOccurAtMost;
    ghost var agreeSets;
    fastFds, agreeSets := RunFastFds(r, r.numColumns, asGenMethod, mcGenMethod);
    depminer, agreeSets := RunDepminer(r, asGenMethod, mcGenMethod);
    NoLimit(fastFds, r);
    if AlwaysSuffices(r, asGenMethod, mcGenMethod) {
      SameDependencies(depminer, fastFds, r);
    }
    if mcGenMethod != UsingCalculateSupersets || asGenMethod == UsingGetAgreeSet {
      MethodsThatSuffice(r, asGenMethod, mcGenMethod);
    }
    fun := RunFun(r);
    if ListsMinimalFds(fun, r) {
      SameDependencies(fastFds, fun, r);
    }
    tane := RunTane(r, r.numColumns);
    NoLimit(tane, r);
    if ListsMinimalFds(fun, r) {
      SameDependencies(tane, fun, r);
    }
    fdep := RunFdep(r);
    assert r.nullEqNull ==> WithEqualNulls(r) == r;
    if fdep.Some? && r.nullEqNull {
      SameDependencies(fun, fdep.value, r);
    }
    aid := RunAid(r);
    if |r.rows| > 0 && r.nullEqNull {
      AidCovers(fun, aid, r, SampleOf(r));
      SameDependencies(aid, fun, r);
    }
  }

  lemma AidCovers(fds: seq<Fd>, aid: seq<Fd>, r: Relation, sampled: set<Vertical>)
    requires ListsMinimalFds(fds, r) && |r.rows| > 0 && sampled <= AgreeSets(r) && InvertsSample(aid, r, sampled)
    ensures forall d :: d in fds ==> exists y :: y <= d.lhs && Fd(y, d.rhs) in aid
  {
    hide InvertsSample, AgreeSets;
    forall d | d in fds ensures exists y :: y <= d.lhs && Fd(y, d.rhs) in aid {
      assert d == Fd(d.lhs, d.rhs) && MinimalFd(r, d.lhs, d.rhs);
      var y := CoversEveryFd(aid, r, sampled, d.lhs, d.rhs);
    }
  }

  // ----- the default way of finding the maximal classes -----

  // Two columns; the rows 2 and 3 agree on the second one only.
  function FourRows(): Relation {
    Relation(2, [[1, 1], [1, 1], [2, 2], [3, 2]], true)
  }

  lemma FourRowsAgree()
    ensures FourRows().AgreeSet(0, 1) == {0, 1} && FourRows().AgreeSet(2, 3) == {1}
  {
  }

  lemma FourRowsTogether(c: nat, i: nat, j: nat)
    requires c < 2
    ensures Together(FourRows(), {c}, i, j) <==> i < 4 && j < 4 && FourRows().rows[i][c] == FourRows().rows[j][c]
  {
    var r := FourRows();
    if i < 4 && j < 4 {
      assert r.Agree({c}, i, j) <==> c in r.AgreeSet(i, j);
    }
  }

  // The indexes of its columns.
  lemma FourRowsIndexes(columnData: seq<PositionListIndex>)
    requires AreColumnPlis(columnData, FourRows())
    ensures |columnData| == 2 && columnData[0].index == [[0, 1]] && columnData[1].index == [[0, 1], [2, 3]]
  {
    var r := FourRows();
    assert IsPliOf(columnData[0], r, {0}) && IsPliOf(columnData[1], r, {1});
    FirstColumnPartition();
    SecondColumnPartition();
    PartitionUnique(columnData[0].index, [[0, 1]], r, {0});
    PartitionUnique(columnData[1].index, [[0, 1], [2, 3]], r, {1});
  }

  // The rows i and j are alone with their value in the column.
  lemma FourRowsCluster(c: nat, i: nat, j: nat)
    requires c < 2 && i < j < 4
    requires forall k: nat {:trigger FourRows().rows[k]} :: k < 4 ==> (k == i || k == j <==> FourRows().rows[k][c] == FourRows().rows[i][c])
    ensures IsCluster([i, j], FourRows(), {c})
  {
    hide Together;
    forall k: nat, l: nat ensures Together(FourRows(), {c}, k, l) <==> k < 4 && l < 4 && FourRows().rows[k][c] == FourRows().rows[l][c] {
      FourRowsTogether(c, k, l);
    }
    assert FourRows().rows[j][c] == FourRows().rows[i][c];
  }

  lemma FirstColumnPartition()
    ensures IsPartition([[0, 1]], FourRows(), {0})
  {
    hide Together, IsCluster;
    FourRowsCluster(0, 0, 1);
    var index := [[0, 1]];
    assert index[0] in index;
    forall i: nat, j: nat | i != j && Together(FourRows(), {0}, i, j) ensures exists c :: c in index && i in c {
      FourRowsTogether(0, i, j);
      assert i in index[0];
    }
  }

  lemma SecondColumnPartition()
    ensures IsPartition([[0, 1], [2, 3]], FourRows(), {1})
  {
    hide Together, IsCluster;
    FourRowsCluster(1, 0, 1);
    FourRowsCluster(1, 2, 3);
    var index := [[0, 1], [2, 3]];
    assert index[0] in index && index[1] in index;
    forall i: nat, j: nat | i != j && Together(FourRows(), {1}, i, j) ensures exists c :: c in index && i in c {
      FourRowsTogether(1, i, j);
      assert i in index[0] || i in index[1];
    }
  }

  // With the defaults of the factory the class [2, 3] of this relation is lost, and with it the only agree set that refutes
  // 1 -> 0: both engines list that dependency.
  method DefaultsMissAClass() returns (fastFds: seq<Fd>, depminer: seq<Fd>)
    ensures Fd({1}, 0) in fastFds && Fd({1}, 0) in depminer && !Holds(FourRows(), {1}, 0)
    ensures !ListsMinimalFds(fastFds, FourRows()) && !ListsMinimalFds(depminer, FourRows())
  {
    hide ListsMinimalFds, ListsSeenFds, Suffices, MayGenerate, Holds;
    ghost var agreeSets;
    fastFds, agreeSets := RunFastFds(FourRows(), 2, UsingMapOfIdSets, UsingCalculateSupersets);
    DefaultAgreeSets(agreeSets);
    ListsWrongly(fastFds);
    depminer, agreeSets := RunDepminer(FourRows(), UsingMapOfIdSets, UsingCalculateSupersets);
    DefaultAgreeSets(agreeSets);
    ListsWrongly(depminer);
  }

  lemma DefaultAgreeSets(agreeSets: set<Vertical>)
    requires MayGenerate(FourRows(), UsingMapOfIdSets, UsingCalculateSupersets, agreeSets)
    ensures agreeSets == {{0, 1}, {}}
  {
    hide AreColumnPlis, Supersets.RunsTo;
    var r := FourRows();
    var columnData, run :| GeneratedBy(columnData, run, r, UsingMapOfIdSets, UsingCalculateSupersets, agreeSets);
    FourRowsIndexes(columnData);
    Supersets.LosesClass(columnData, run);
    FourRowsAgree();
    assert (0, 1) in RowPairs(r) && [0, 1] in run.rep && IsCompared(UsingMapOfIdSets, run.rep, r, 0, 1);
    forall p | p in RowPairs(r) && IsCompared(UsingMapOfIdSets, run.rep, r, p.0, p.1) ensures r.AgreeSet(p.0, p.1) == {0, 1} {
      var c :| c in run.rep && p.0 in c && p.1 in c;
      assert r.AgreeSet(p.0, p.1) == r.AgreeSet(p.1, p.0);
    }
  }

  lemma ListsWrongly(fds: seq<Fd>)
    requires ListsSeenFds(fds, FourRows(), {{0, 1}, {}}, 2)
    ensures Fd({1}, 0) in fds && !Holds(FourRows(), {1}, 0) && !ListsMinimalFds(fds, FourRows())
  {
    var r, agreeSets: set<Vertical> := FourRows(), {{0, 1}, {}};
    FourRowsAgree();
    assert r.Agree({1}, 2, 3) && 0 !in r.AgreeSet(2, 3);
    assert r.Agree({}, 2, 3);
    var family := DifferenceFamily(r, agreeSets, 0);
    assert r.Columns() - {} - {0} == {1};
    assert family == {{1}};
    forall sub: Vertical | sub < {1} ensures !Hits(family, sub) {
      assert sub * {1} == {};
    }
    assert {1} * {1} == {1};
    assert MinimalHitting(family, {1});
    assert SeenFd(r, agreeSets, {1}, 0);
  }
}
