// TANE in exact mode: level-wise search with right-hand-side candidates and key pruning.
module Tane {
  import opened Relations
  import opened FdLists
  import opened Bits
  import opened Partitions
  import opened Options
  import opened PositionListIndexes
  import opened TaneTheory
  import opened Lattice
  import opened LatticeLevel
  import opened TaneLevels

  const MAX_UNSIGNED: nat := 0xFFFF_FFFF

  class Tane {
    const relation: Relation
    const columnData: seq<PositionListIndex>
    const maxLhs: nat
    var fdCollection: seq<Fd>

    ghost predicate Fitted() {
      AreColumnPlis(columnData, relation) && maxLhs <= MAX_UNSIGNED && relation.numColumns < MAX_UNSIGNED
    }

    constructor (relation: Relation, columnData: seq<PositionListIndex>, maxLhs: nat)
      requires AreColumnPlis(columnData, relation) && maxLhs <= MAX_UNSIGNED && relation.numColumns < MAX_UNSIGNED
      ensures Fitted() && this.relation == relation && this.maxLhs == maxLhs && fdCollection == []
    {
      this.relation, this.columnData, this.maxLhs := relation, columnData, maxLhs;
      fdCollection := [];
    }

    function GetNumTuplePairs(): nat {
      Pairs(|relation.rows|)
    }

    method RegisterFd(lhs: Vertical, rhs: nat, ghost before: seq<Fd>, ghost added: set<Fd>)
      requires Appended(fdCollection, before, added) && Fd(lhs, rhs) !in added
      modifies this`fdCollection
      ensures Appended(fdCollection, before, added + {Fd(lhs, rhs)})
    {
      AppendOne(fdCollection, before, added, Fd(lhs, rhs));
      fdCollection := fdCollection + [Fd(lhs, rhs)];
    }

    // The index of a vertex from the indexes of its first two parents.
    method AcquirePositionListIndex(xaVertex: LatticeVertex, previous: Level)
      requires IsKeyed(previous) && |xaVertex.vertical| >= 2 && xaVertex.vertical <= relation.Columns()
      requires ParentsAre(xaVertex.parents, xaVertex.vertical, previous, xaVertex.vertical)
      requires ParentsIndexed(previous, relation, xaVertex.vertical)
      modifies xaVertex`positionListIndex
      ensures HasIndex(xaVertex, relation, xaVertex.vertical)
    {
      hide IsPliOf, ParentsAre, IsKeyed;
      ghost var x := xaVertex.vertical;
      ghost var b0, b1 := FirstParents(xaVertex.parents, previous, x);
      var parentPli1, parentPli2 :=
        xaVertex.parents[0].positionListIndex.value, xaVertex.parents[1].positionListIndex.value;
      assert x - {b0} + (x - {b1}) == x;
      var joint := Intersect(parentPli1, parentPli2, relation, x - {b0}, x - {b1});
      xaVertex.positionListIndex := Some(joint);
    }

    // Tests x -> a for the columns a of xa that are candidates.
    method TestVertex(xaVertex: LatticeVertex, previous: Level)
      requires Fitted() && IsKeyed(previous) && xaVertex !in previous.Values
      requires |xaVertex.vertical| >= 2 && xaVertex.vertical <= relation.Columns()
      requires ParentsAre(xaVertex.parents, xaVertex.vertical, previous, xaVertex.vertical)
      requires !xaVertex.isInvalid ==> ParentsIndexed(previous, relation, xaVertex.vertical)
      modifies this`fdCollection, xaVertex
      ensures xaVertex.isInvalid == old(xaVertex.isInvalid) && xaVertex.isKeyCandidate == old(xaVertex.isKeyCandidate)
      ensures xaVertex.parents == old(xaVertex.parents)
      ensures xaVertex.isInvalid ==> xaVertex.rhsCandidates == old(xaVertex.rhsCandidates) && fdCollection == old(fdCollection)
      ensures !xaVertex.isInvalid ==> HasIndex(xaVertex, relation, xaVertex.vertical)
      ensures !xaVertex.isInvalid ==>
        var found := Found(relation, xaVertex.vertical, old(xaVertex.rhsCandidates));
        && xaVertex.rhsCandidates == CandidatesAfter(xaVertex.vertical, old(xaVertex.rhsCandidates), found)
        && Appended(fdCollection, old(fdCollection), FoundFds(relation, xaVertex.vertical, found))
    {
      hide ParentsAre, IsKeyed, Found, FoundFds, CandidatesAfter, DoneUpTo, IsPliOf, Appended;
      if xaVertex.isInvalid {
        return;
      }
      var xa := xaVertex.vertical;
      var aCandidates := xaVertex.rhsCandidates;
      AcquirePositionListIndex(xaVertex, previous);
      ghost var found, done := Found(relation, xa, aCandidates), {};
      ghost var before := fdCollection;
      TestStart(relation, xa, aCandidates, fdCollection);
      DoneStart(xaVertex.parents, previous, xa);
      var i := 0;
      while i < |xaVertex.parents|
        invariant 0 <= i <= |xaVertex.parents| && xaVertex.parents == old(xaVertex.parents)
        invariant xaVertex.isKeyCandidate == old(xaVertex.isKeyCandidate) && !xaVertex.isInvalid
        invariant HasIndex(xaVertex, relation, xa) && DoneUpTo(xaVertex.parents, i, done, previous, xa)
        invariant xaVertex.rhsCandidates == CandidatesAfter(xa, aCandidates, found * done)
        invariant Appended(fdCollection, before, FoundFds(relation, xa, found * done))
      {
        var xVertex := xaVertex.parents[i];
        ghost var b := DoneStep(xaVertex.parents, i, done, previous, xa);
        var lhs := xVertex.vertical;
        MissingColumnIs(xa, b, 0, relation.numColumns);
        var aIndex := MissingColumn(xa, lhs, 0, relation.numColumns);
        TestMeans(relation, xa, aCandidates, b);
        CandidatesStep(xa, aCandidates, found, done, b);
        FoundFdsStep(relation, xa, found, done, b);
        if aIndex in aCandidates {
          PliNeps(xVertex.positionListIndex.value, xaVertex.positionListIndex.value, relation, xa, b);
          var error := CalculateFdError(xVertex.positionListIndex.value.nep,
            xaVertex.positionListIndex.value.nep, GetNumTuplePairs());
          if error.AtMostZero() {
            RegisterFd(lhs, aIndex, before, FoundFds(relation, xa, found * done));
            xaVertex.rhsCandidates := xaVertex.rhsCandidates - {aIndex};
            xaVertex.rhsCandidates := xaVertex.rhsCandidates * lhs;
          }
        }
        i, done := i + 1, done + {b};
      }
      DoneEnd(xaVertex.parents, done, previous, xa);
      FoundInside(relation, xa, aCandidates);
    }

    // One iteration over the vertices of a level.
    method TestOne(level: Level, previous: Level, ghost arity: nat, ghost view: map<Vertical, VertexView>,
                   ghost keys: set<Vertical>, ghost done: set<Vertical>, x: Vertical, ghost before: seq<Fd>)
      requires Fitted() && IsKeyed(previous) && IsLatticeLevel(level, arity, relation) && arity >= 2
      requires level.Values !! previous.Values && x in keys
      requires forall y :: y in level && !level[y].isInvalid ==> ParentsIndexed(previous, relation, y)
      requires TestProgress(Snapshots(level), previous, view, keys, done, relation)
      requires Appended(fdCollection, before, LevelFound(view, done, relation))
      modifies this`fdCollection, level.Values
      ensures TestProgress(Snapshots(level), previous, view, keys - {x}, done + {x}, relation)
      ensures Appended(fdCollection, before, LevelFound(view, done + {x}, relation))
      ensures forall y :: y in level ==> level[y].isInvalid == old(level[y].isInvalid)
    {
      hide IsKeyed, ParentsAre, Found, Appended, LevelFound, CandidatesAfter, ParentsIndexed, IsIndexOf;
      hide IsLatticeLevel, TestProgress;
      TestProgressMeans(level, previous, view, keys, done, relation, x);
      OthersDiffer(level, arity, relation, x);
      ghost var now := Snapshots(level);
      TestVertex(level[x], previous);
      assert Snapshots(level) == now[x := SnapshotOf(level[x])];
      TestProgressStep(now, SnapshotOf(level[x]), previous, view, keys, done, relation, x);
      MoreFound(view, done, x, relation, fdCollection, old(fdCollection), before);
    }

    // Tests all vertices of a level against the level below.
    method TestLevel(level: Level, previous: Level, ghost arity: nat)
      requires Fitted() && IsKeyed(previous) && IsLatticeLevel(level, arity, relation) && arity >= 2
      requires level.Values !! previous.Values && ParentsKnown(level, previous)
      requires forall x :: x in level && !level[x].isInvalid ==> ParentsIndexed(previous, relation, x)
      modifies this`fdCollection, level.Values
      ensures HasIndexes(level, relation) && LevelView(level) == TestedView(old(LevelView(level)), relation)
      ensures Appended(fdCollection, old(fdCollection), LevelFound(old(LevelView(level)), level.Keys, relation))
    {
      hide IsKeyed, ParentsAre, Found, Appended, LevelFound, CandidatesAfter, ParentsIndexed, HasIndex;
      hide IsLatticeLevel, TestProgress;
      ghost var view := LevelView(level);
      var keys := level.Keys;
      ghost var done: set<Vertical> := {};
      NothingFound(view, relation, fdCollection);
      TestProgressStart(level, previous, relation);
      while keys != {}
        invariant forall y :: y in level && !level[y].isInvalid ==> ParentsIndexed(previous, relation, y)
        invariant TestProgress(Snapshots(level), previous, view, keys, done, relation)
        invariant Appended(fdCollection, old(fdCollection), LevelFound(view, done, relation))
        decreases keys
      {
        var x :| x in keys;
        TestOne(level, previous, arity, view, keys, done, x, old(fdCollection));
        keys, done := keys - {x}, done + {x};
      }
      TestProgressEnd(level, previous, view, done, relation);
    }

    // Whether every vertex that replaces one column of columns by rhs exists and still has the candidate rhs.
    method CheckSiblings(level: Level, columns: Vertical, rhs: nat) returns (isRhsCandidate: bool)
      requires columns <= relation.Columns()
      ensures isRhsCandidate == SiblingsAllow(LevelView(level), columns, rhs)
    {
      var column := FindFrom(columns, 0, relation.numColumns);
      while column < relation.numColumns
        invariant column <= relation.numColumns && (column < relation.numColumns ==> column in columns)
        invariant forall c :: c in columns && c < column ==>
          columns - {c} + {rhs} in level && rhs in level[columns - {c} + {rhs}].rhsCandidates
        decreases relation.numColumns - column
      {
        var sibling := columns - {column} + {rhs};
        if sibling !in level || rhs !in level[sibling].rhsCandidates {
          return false;
        }
        column := FindNext(columns, column, relation.numColumns);
      }
      return true;
    }

    // Registers columns -> rhs for the outer candidates that the siblings allow.
    method RegisterKeyFds(level: Level, columns: Vertical, ghost arity: nat)
      requires Prunable(LevelView(level), columns, arity, relation) && columns in level
      modifies this`fdCollection
      ensures Appended(fdCollection, old(fdCollection), KeyFds(relation, columns, relation.numColumns))
    {
      hide Appended, MinimalFd, KeyFds, Prunable, SiblingsAllow;
      ghost var view, before := LevelView(level), fdCollection;
      var n := relation.numColumns;
      PrunableBounds(view, columns, arity, relation);
      var rhsIndex := FindFrom(level[columns].rhsCandidates, 0, n);
      NotMinimal(view, columns, arity, relation, 0, rhsIndex, false);
      KeyFdsStart(relation, columns, rhsIndex, fdCollection);
      while rhsIndex < n
        invariant rhsIndex <= n && (rhsIndex < n ==> rhsIndex in view[columns].rhsCandidates)
        invariant Appended(fdCollection, before, KeyFds(relation, columns, rhsIndex))
        decreases n - rhsIndex
      {
        var next := FindNext(level[columns].rhsCandidates, rhsIndex, n);
        NotMinimal(view, columns, arity, relation, rhsIndex, next, true);
        KeyFdsStep(relation, columns, rhsIndex, next);
        PruningDecides(view, columns, arity, relation, rhsIndex);
        if rhsIndex !in columns {
          var isRhsCandidate := CheckSiblings(level, columns, rhsIndex);
          if isRhsCandidate {
            RegisterFd(columns, rhsIndex, before, KeyFds(relation, columns, rhsIndex));
          }
        }
        rhsIndex := next;
      }
    }

    // Prunes one vertex. A pruned vertex keeps only the candidates inside its columns and
    // becomes invalid; repeating that for the keys pruned before changes nothing.
    method PruneVertex(level: Level, columns: Vertical, ghost arity: nat)
      requires IsKeyed(level) && HasIndexes(level, relation) && FlagsMatch(level)
      requires columns in level && columns <= relation.Columns()
      requires |relation.rows| >= 2 && level[columns].isKeyCandidate ==> Live(relation, columns)
      requires |relation.rows| >= 2 && IsKey(relation, columns) && Live(relation, columns) ==>
        Prunable(LevelView(level), columns, arity, relation) && level[columns].isKeyCandidate
      modifies this`fdCollection, level[columns]
      ensures HasIndexes(level, relation) && FlagsMatch(level)
      ensures LevelView(level) ==
        old(LevelView(level))[columns := PrunedVertex(old(LevelView(level))[columns], columns, relation)]
      ensures Appended(fdCollection, old(fdCollection),
        if |relation.rows| >= 2 && IsKey(relation, columns) && Live(relation, columns)
        then KeyFds(relation, columns, relation.numColumns) else {})
    {
      hide Appended, KeyFds, Prunable, IsPliOf, IsKey, Live;
      var vertex := level[columns];
      AppendNothing(fdCollection);
      if vertex.isKeyCandidate {
        assert HasIndex(vertex, relation, columns);
        var pli := vertex.positionListIndex.value;
        PliUccError(pli, relation, columns);
        var uccError := CalculateUccError(pli.nep, GetNumTuplePairs());
        if uccError.AtMostZero() {
          RegisterKeyFds(level, columns, arity);
          vertex.isKeyCandidate := false;
          vertex.rhsCandidates := vertex.rhsCandidates * columns;
          vertex.isInvalid := true;
        }
      }
    }

    // Key pruning of a whole level.
    method PruneLevel(level: Level, ghost arity: nat)
      requires IsLatticeLevel(level, arity, relation) && arity >= 1
      requires HasIndexes(level, relation) && FlagsMatch(level)
      requires |relation.rows| >= 2 ==> LevelTested(LevelView(level), arity, relation)
      modifies this`fdCollection, level.Values
      ensures HasIndexes(level, relation) && FlagsMatch(level)
      ensures LevelView(level) == PrunedView(old(LevelView(level)), relation)
      ensures Appended(fdCollection, old(fdCollection), LevelKeyFds(relation, level.Keys))
    {
      hide Appended, LevelKeyFds, KeyFds, Prunable, HasIndexes, FlagsMatch, IsKey, Live, LevelTested, PruneProgress;
      hide LevelView, PrunedView;
      ghost var view := LevelView(level);
      var keys := level.Keys;
      ghost var done: set<Vertical> := {};
      PruneStart(view, relation, fdCollection);
      ViewOf(level);
      while keys != {}
        invariant keys <= level.Keys && HasIndexes(level, relation) && FlagsMatch(level)
        invariant PruneProgress(LevelView(level), view, keys, done, relation)
        invariant Appended(fdCollection, old(fdCollection), LevelKeyFds(relation, done))
        decreases keys
      {
        var x :| x in keys;
        ghost var middle := fdCollection;
        ViewOf(level);
        if |relation.rows| >= 2 {
          ProgressIsPrunable(LevelView(level), view, keys, done, relation, arity, x);
        }
        PruneProgressStep(LevelView(level), view, keys, done, relation, x);
        PruneVertex(level, x, arity);
        MoreKeys(relation, done, x, fdCollection, middle, old(fdCollection));
        keys, done := keys - {x}, done + {x};
      }
      PruneProgressEnd(LevelView(level), view, done, relation);
    }

    // The vertex of a column and whether the column is constant.
    method SetUpVertexOf(c: nat, emptyVertex: LatticeVertex) returns (vertex: LatticeVertex, isConstant: bool)
      requires Fitted() && c < relation.numColumns
      ensures fresh(vertex) && vertex.vertical == {c} && IsSetUp(vertex, {c}, relation)
      ensures isConstant <==> c in ZeroaryRhs(relation)
    {
      hide IsPliOf, ZeroaryRhs;
      var pli := columnData[c];
      vertex := new LatticeVertex({c});
      vertex.rhsCandidates := vertex.rhsCandidates + relation.Columns();
      vertex.parents := vertex.parents + [emptyVertex];
      vertex.isKeyCandidate := true;
      vertex.positionListIndex := Some(pli);
      ZeroaryError(pli, relation, c);
      var fdError := CalculateZeroAryFdError(pli.nep, GetNumTuplePairs());
      isConstant := fdError.AtMostZero();
      if isConstant {
        vertex.rhsCandidates := {};
      }
    }

    // The vertices of single columns; constant columns depend on nothing.
    method SetUpLevel1(emptyVertex: LatticeVertex) returns (level1: Level, zeroaryFdRhs: Vertical)
      requires Fitted()
      modifies this`fdCollection
      ensures level1.Keys == Singletons(relation.numColumns) && forall x :: x in level1 ==> fresh(level1[x])
      ensures AreSetUp(level1, relation) && zeroaryFdRhs == ZeroaryRhs(relation)
      ensures Appended(fdCollection, old(fdCollection), ConstantFds(relation, relation.numColumns))
    {
      hide Appended, ConstantFds, Singletons, AreSetUp, IsSetUp, ZeroaryRhs, ZeroaryBelow, Fitted;
      level1, zeroaryFdRhs := map[], {};
      NoConstants(relation, fdCollection);
      NoneSetUp(relation);
      ZeroaryInside(relation);
      var c := 0;
      while c < relation.numColumns
        invariant c <= relation.numColumns
        invariant level1.Keys == Singletons(c) && forall x :: x in level1 ==> fresh(level1[x])
        invariant AreSetUp(level1, relation)
        invariant zeroaryFdRhs == ZeroaryBelow(relation, c)
        invariant Appended(fdCollection, old(fdCollection), ConstantFds(relation, c))
      {
        NextSingleton(relation, c);
        ZeroaryStep(relation, c);
        var vertex, isConstant := SetUpVertexOf(c, emptyVertex);
        if isConstant {
          zeroaryFdRhs := zeroaryFdRhs + {c};
          RegisterFd({}, c, old(fdCollection), ConstantFds(relation, c));
        }
        MoreSetUp(level1, relation, vertex);
        level1 := level1[{c} := vertex];
        c := c + 1;
      }
    }

    // The key test of a single column.
    method FinishVertex(vertex: LatticeVertex, zeroaryFdRhs: Vertical)
      requires Fitted() && vertex.vertical in Singletons(relation.numColumns)
      requires vertex.View() == SetUpVertex(vertex.vertical, relation) && zeroaryFdRhs == ZeroaryRhs(relation)
      requires HasIndex(vertex, relation, vertex.vertical)
      modifies this`fdCollection, vertex
      ensures vertex.View() == FirstVertex(vertex.vertical, relation, maxLhs)
      ensures HasIndex(vertex, relation, vertex.vertical)
      ensures Appended(fdCollection, old(fdCollection),
        if maxLhs > 0 && |relation.rows| >= 2 && IsKey(relation, vertex.vertical) && Live(relation, vertex.vertical)
        then KeyFds(relation, vertex.vertical, relation.numColumns) else {})
    {
      hide Appended, KeyFds, Singletons, IsKey, Live, MinimalFd, IsPliOf, ZeroaryRhs;
      var column, n := vertex.vertical, relation.numColumns;
      SingletonInside(column, n);
      AppendNothing(fdCollection);
      vertex.rhsCandidates := vertex.rhsCandidates - zeroaryFdRhs;
      var pli := vertex.positionListIndex.value;
      PliUccError(pli, relation, column);
      var uccError := CalculateUccError(pli.nep, GetNumTuplePairs());
      if uccError.AtMostZero() {
        SingletonKey(relation, column, n);
        vertex.isKeyCandidate := false;
        if maxLhs != 0 {
          RegisterFromKey(column, vertex.rhsCandidates);
          vertex.rhsCandidates := vertex.rhsCandidates * column;
          vertex.isInvalid := true;
        }
      }
    }

    // Registers column -> rhs for all candidates but the column itself.
    method RegisterFromKey(column: Vertical, candidates: Vertical)
      requires column in Singletons(relation.numColumns) && |relation.rows| >= 2 && IsKey(relation, column)
      requires candidates == SetUpVertex(column, relation).rhsCandidates - ZeroaryRhs(relation)
      modifies this`fdCollection
      ensures Appended(fdCollection, old(fdCollection), KeyFds(relation, column, relation.numColumns))
    {
      hide Appended, KeyFds, MinimalFd, IsKey, Singletons;
      var n := relation.numColumns;
      forall a: nat ensures a in candidates && a !in column <==> MinimalFd(relation, column, a) {
        SingletonKey(relation, column, a);
      }
      var rhsIndex := FindFrom(candidates, 0, n);
      KeyFdsStart(relation, column, rhsIndex, fdCollection);
      while rhsIndex < n
        invariant rhsIndex <= n && (rhsIndex < n ==> rhsIndex in candidates)
        invariant Appended(fdCollection, old(fdCollection), KeyFds(relation, column, rhsIndex))
        decreases n - rhsIndex
      {
        var next := FindNext(candidates, rhsIndex, n);
        KeyFdsStep(relation, column, rhsIndex, next);
        if rhsIndex !in column {
          RegisterFd(column, rhsIndex, old(fdCollection), KeyFds(relation, column, rhsIndex));
        }
        rhsIndex := next;
      }
    }

    // One iteration of the key tests of level 1.
    method FinishOne(level1: Level, zeroaryFdRhs: Vertical, x: Vertical, ghost keys: set<Vertical>,
                     ghost done: set<Vertical>, ghost before: seq<Fd>)
      requires Fitted() && IsLatticeLevel(level1, 1, relation) && level1.Keys == Singletons(relation.numColumns)
      requires zeroaryFdRhs == ZeroaryRhs(relation) && x in keys
      requires FirstProgress(Snapshots(level1), keys, done, relation, maxLhs)
      requires Appended(fdCollection, before, if maxLhs == 0 then {} else LevelKeyFds(relation, done))
      modifies this`fdCollection, level1.Values
      ensures FirstProgress(Snapshots(level1), keys - {x}, done + {x}, relation, maxLhs)
      ensures Appended(fdCollection, before, if maxLhs == 0 then {} else LevelKeyFds(relation, done + {x}))
    {
      hide Appended, IsKey, Live, LevelKeyFds, KeyFds, Singletons, ZeroaryRhs, SetUpVertex, FirstVertex, FirstProgress;
      hide IsIndexOf, IsLatticeLevel, Fitted;
      FirstProgressMeans(level1, keys, done, relation, maxLhs, x);
      OthersDiffer(level1, 1, relation, x);
      ghost var now := Snapshots(level1);
      FinishVertex(level1[x], zeroaryFdRhs);
      assert Snapshots(level1) == now[x := SnapshotOf(level1[x])];
      FirstProgressStep(now, SnapshotOf(level1[x]), keys, done, relation, maxLhs, x);
      if maxLhs > 0 {
        MoreKeys(relation, done, x, fdCollection, old(fdCollection), before);
      } else {
        ghost var none: set<Fd> := {};
        assert none + none == none;
        AppendMore(fdCollection, old(fdCollection), before, none, none);
      }
    }

    // Levels 0 and 1.
    method InitializeLevel1() returns (level1: Level)
      requires Fitted() && fdCollection == []
      modifies this`fdCollection
      ensures forall x :: x in level1 ==> fresh(level1[x])
      ensures IsLatticeLevel(level1, 1, relation) && HasIndexes(level1, relation)
      ensures maxLhs > 0 ==> FlagsMatch(level1)
      ensures |relation.rows| >= 2 && maxLhs > 0 ==> LevelDone(LevelView(level1), 1, relation)
      ensures |relation.rows| >= 2 ==> Registered(fdCollection, relation, if maxLhs == 0 then 0 else 1, 1)
      ensures |relation.rows| < 2 ==> fdCollection == []
    {
      hide Appended, LevelDone, Registered, LevelKeyFds, ConstantFds, Singletons, ZeroaryRhs, FirstProgress, AreSetUp;
      hide IsLatticeLevel, HasIndexes, FlagsMatch, LevelView, Snapshots, Fitted;
      var emptyVertex := new LatticeVertex({});
      var zeroaryFdRhs;
      level1, zeroaryFdRhs := SetUpLevel1(emptyVertex);
      ghost var middle := fdCollection;
      AppendNothing(fdCollection);
      NoKeys(relation);
      FirstProgressStart(level1, relation, maxLhs);
      var keys := level1.Keys;
      ghost var done: set<Vertical> := {};
      while keys != {}
        invariant keys <= level1.Keys && FirstProgress(Snapshots(level1), keys, done, relation, maxLhs)
        invariant Appended(fdCollection, middle, if maxLhs == 0 then {} else LevelKeyFds(relation, done))
        decreases keys
      {
        var x :| x in keys;
        FinishOne(level1, zeroaryFdRhs, x, keys, done, middle);
        keys, done := keys - {x}, done + {x};
      }
      FirstLevel(level1, fdCollection, middle, done, relation, maxLhs);
    }

    // Generates a level and tests it; an empty level ends the search.
    method NextLevel(level: Level, arity: nat) returns (next: Level)
      requires Fitted() && LevelReached(level, fdCollection, arity, relation)
      modifies this`fdCollection
      ensures forall x :: x in next ==> fresh(next[x])
      ensures next != map[] ==> LevelTestsDone(next, fdCollection, arity + 1, relation)
      ensures next == map[] && arity <= maxLhs && |relation.rows| >= 2 ==>
        ListsMinimalFdsUpTo(fdCollection, relation, maxLhs)
      ensures next == map[] && |relation.rows| < 2 ==> fdCollection == []
    {
      hide LevelReached, LevelTestsDone, LevelDone, Registered, IsNextLevel, NextVertices, HasIndexes, FlagsMatch;
      hide LevelView, ParentsKnown, ParentsIndexed, IsLatticeLevel, IsKeyed, LevelFound, TestedView, Fitted;
      hide Appended, ListsMinimalFdsUpTo;
      ReachedMeans(level, fdCollection, arity, relation);
      ghost var view, before := LevelView(level), fdCollection;
      next := GenerateNextLevel(level, arity, relation);
      assert LevelView(level) == view;
      NextLevelReady(next, level, view, arity, relation);
      FlagsOfView(next);
      if next == map[] {
        if |relation.rows| >= 2 && arity <= maxLhs {
          NoView(next);
          EmptyLevelEnds(fdCollection, LevelView(next), view, arity + 1, maxLhs, relation);
        }
        return;
      }
      ghost var generated := LevelView(next);
      TestLevel(next, level, arity + 1);
      TestsAreDone(next, fdCollection, before, generated, view, arity, relation);
    }

    // Prunes a tested level.
    method FinishLevel(level: Level, ghost arity: nat)
      requires LevelTestsDone(level, fdCollection, arity, relation)
      modifies this`fdCollection, level.Values
      ensures LevelReached(level, fdCollection, arity, relation)
    {
      hide LevelReached, LevelTestsDone, LevelTested, LevelDone, Registered, HasIndexes, FlagsMatch, LevelView;
      hide IsLatticeLevel, PrunedView, LevelKeyFds, Appended;
      TestsDoneMeans(level, fdCollection, arity, relation);
      FlagsOfView(level);
      ghost var view, before := LevelView(level), fdCollection;
      PruneLevel(level, arity);
      PruningIsDone(level, fdCollection, before, view, arity, relation);
    }

    // The search registers every minimal dependency with at most maxLhs columns on the left exactly once and
    // nothing else; with fewer than two rows it registers nothing, which is right only without columns.
    method ExecuteInternal()
      requires Fitted() && fdCollection == []
      modifies this`fdCollection
      ensures |relation.rows| >= 2 ==> ListsMinimalFdsUpTo(fdCollection, relation, maxLhs)
      ensures |relation.rows| < 2 ==> fdCollection == []
      ensures ListsMinimalFdsUpTo(fdCollection, relation, maxLhs) <==> |relation.rows| >= 2 || relation.numColumns == 0
    {
      hide LevelReached, LevelTestsDone, LevelDone, HasIndexes, FlagsMatch, LevelView, IsLatticeLevel;
      hide ListsMinimalFdsUpTo, Registered;
      var level := InitializeLevel1();
      if |relation.rows| < 2 {
        FewRows(relation, maxLhs);
      }
      var maxArity := if maxLhs == MAX_UNSIGNED then maxLhs else maxLhs + 1;
      if maxLhs > 0 {
        FirstReached(level, fdCollection, relation);
      } else if |relation.rows| >= 2 {
        LastLevelEnds(fdCollection, 0, relation);
      }
      var arity := 2;
      while arity <= maxArity
        invariant 2 <= arity <= relation.numColumns + 2 && forall x :: x in level ==> fresh(level[x])
        invariant maxLhs > 0 ==> arity <= maxArity && LevelReached(level, fdCollection, arity - 1, relation)
        invariant maxLhs == 0 && |relation.rows| >= 2 ==> ListsMinimalFdsUpTo(fdCollection, relation, maxLhs)
        invariant maxLhs == 0 && |relation.rows| < 2 ==> fdCollection == []
        decreases relation.numColumns + 2 - arity
      {
        level := NextLevel(level, arity - 1);
        if level == map[] {
          return;
        }
        TestsDoneMeans(level, fdCollection, arity, relation);
        ArityBound(level, arity, relation);
        if arity == maxArity {
          if |relation.rows| >= 2 {
            LastLevelEnds(fdCollection, maxLhs, relation);
          }
          return;
        }
        FinishLevel(level, arity);
        arity := arity + 1;
      }
    }
  }
}
