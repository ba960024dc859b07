// FUN: free sets by cardinality counting, with quasi-closures instead of right-hand-side candidates.
module Fun {
  import opened Relations
  import opened FdLists
  import opened Bits
  import opened Verticals
  import opened Partitions
  import opened PositionListIndexes
  import opened TaneTheory
  import opened FunTheory

  datatype FunQuadruple = Quadruple(candidate: Vertical, count: nat, quasiclosure: Vertical, closure: Vertical)

  type FunLevel = seq<FunQuadruple>

  function NewQuadruple(candidate: Vertical): FunQuadruple {
    Quadruple(candidate, 0, {}, {})
  }

  // ----- what is known of a quadruple -----

  // Its cardinality is the one of its candidate.
  ghost predicate IsCounted(q: FunQuadruple, k: nat, r: Relation) {
    q.candidate <= r.Columns() && |q.candidate| == k && q.count == Cardinality(r, q.candidate)
  }

  // The quasi-closure holds the candidate and only what proper subsets determine besides.
  ghost predicate HasQuasiclosure(q: FunQuadruple, r: Relation) {
    && q.candidate <= q.quasiclosure <= r.Columns()
    && forall a :: a in q.quasiclosure && a !in q.candidate ==> exists s: Vertical :: s < q.candidate && Holds(r, s, a)
  }

  // It is the candidate with the closures of the subsets in the level below.
  ghost predicate GathersClosures(q: FunQuadruple, lKMinus1: FunLevel, n: nat) {
    forall a :: a in q.quasiclosure <==> a in q.candidate || InClosureBelow(a, q.candidate, lKMinus1, n)
  }

  ghost predicate InClosureBelow(a: nat, x: Vertical, lKMinus1: FunLevel, n: nat) {
    exists i :: 0 <= i < n && i < |lKMinus1| && lKMinus1[i].candidate <= x && a in lKMinus1[i].closure
  }

  // The closure is the set of determined columns; the empty candidate keeps an empty one.
  ghost predicate HasClosure(q: FunQuadruple, r: Relation) {
    q.closure == if q.candidate == {} then {} else ClosureOf(r, q.candidate)
  }

  // Before the closures of a level are computed only its keys have theirs.
  ghost predicate HasKeyClosure(q: FunQuadruple, r: Relation) {
    q.closure == if q.count == |r.rows| then r.Columns() else {}
  }

  ghost predicate DistinctCandidates(level: FunLevel) {
    forall i, j :: 0 <= i < j < |level| ==> level[i].candidate != level[j].candidate
  }

  ghost predicate HasCandidate(level: FunLevel, x: Vertical) {
    exists i :: 0 <= i < |level| && level[i].candidate == x
  }

  ghost predicate HasCount(level: FunLevel, x: Vertical, count: nat) {
    exists i :: 0 <= i < |level| && level[i].candidate == x && level[i].count == count
  }

  // The largest count among the subsets of x in the level.
  ghost predicate IsLargestCount(level: FunLevel, x: Vertical, count: nat) {
    && (forall i :: 0 <= i < |level| && level[i].candidate <= x ==> level[i].count <= count)
    && (count == 0 || exists i :: 0 <= i < |level| && level[i].candidate <= x && level[i].count == count)
  }

  ghost predicate IsLevelOf(level: FunLevel, k: nat, r: Relation) {
    DistinctCandidates(level) && forall i :: 0 <= i < |level| ==> IsCounted(level[i], k, r)
  }

  // All useful sets of k columns are in the level.
  ghost predicate HasUseful(level: FunLevel, k: nat, r: Relation) {
    forall x: Vertical :: IsUseful(r, x) && |x| == k ==> HasCandidate(level, x)
  }

  // The level has every extension of a non-key candidate of the previous one by a non-key column.
  ghost predicate Extends(level: FunLevel, previous: FunLevel, rPrime: Vertical, r: Relation) {
    forall i, a :: 0 <= i < |previous| && previous[i].count != |r.rows| && a in rPrime && a !in previous[i].candidate ==>
      HasCandidate(level, previous[i].candidate + {a})
  }

  ghost predicate IsExtension(x: Vertical, previous: FunLevel, rPrime: Vertical, r: Relation) {
    exists i, a :: 0 <= i < |previous| && previous[i].count != |r.rows| && a in rPrime && a !in previous[i].candidate
      && x == previous[i].candidate + {a}
  }

  // All candidates are such extensions.
  ghost predicate ExtendsOnly(level: FunLevel, previous: FunLevel, rPrime: Vertical, r: Relation) {
    forall x :: HasCandidate(level, x) ==> IsExtension(x, previous, rPrime, r)
  }

  ghost predicate IsRPrime(rPrime: Vertical, r: Relation) {
    forall a :: a in rPrime <==> a in r.Columns() && ClassCount(r, {a}) != |r.rows|
  }

  lemma KeyCount(q: FunQuadruple, k: nat, r: Relation)
    requires IsCounted(q, k, r) && |r.rows| > 0
    ensures q.count == |r.rows| <==> q.candidate != {} && IsKey(r, q.candidate)
  {
    CardinalityDecidesKey(r, q.candidate);
  }

  class FUN {
    const relation: Relation
    const columnData: seq<PositionListIndex>
    var r: Vertical
    var rPrime: Vertical
    var fds: map<nat, set<Vertical>>
    var fdCollection: seq<Fd>

    ghost predicate Fitted() {
      AreColumnPlis(columnData, relation)
    }

    constructor (relation: Relation, columnData: seq<PositionListIndex>)
      requires AreColumnPlis(columnData, relation)
      ensures Fitted() && this.relation == relation && fds == map[] && fdCollection == [] && r == {} && rPrime == {}
    {
      this.relation, this.columnData := relation, columnData;
      r, rPrime, fds, fdCollection := {}, {}, map[], [];
    }

    predicate IsKey(l: FunQuadruple) {
      l.count == |relation.rows|
    }

    // The number of classes of a candidate, from the indexes of its columns.
    method Count(l: Vertical) returns (count: nat)
      requires Fitted() && l != {} && l <= relation.Columns()
      ensures count == ClassCount(relation, l)
    {
      hide IsPliOf, ClassCount;
      var n := relation.numColumns;
      var first := FindFrom(l, 0, n);
      FirstColumn(l, n);
      var pli := columnData[first];
      if l == {first} {
        PliCounts(pli, relation, l);
        return pli.GetNumCluster();
      }
      var i := FindNext(l, first, n);
      ghost var done: Vertical := {first};
      while i < n
        invariant i <= n && (i < n ==> i in l)
        invariant IsPliOf(pli, relation, done) && done <= l
        invariant forall c :: c in l && c < i ==> c in done
        decreases n - i
      {
        pli := Intersect(pli, columnData[i], relation, done, {i});
        done := done + {i};
        i := FindNext(l, i, n);
      }
      assert done == l;
      PliCounts(pli, relation, l);
      count := pli.GetNumCluster();
    }

    // The count of a candidate of the level, or the largest count of its subsets in the level below.
    method FastCount(lKMinus1: FunLevel, lK: FunLevel, l: Vertical) returns (count: nat)
      ensures if HasCandidate(lK, l) then HasCount(lK, l, count) else IsLargestCount(lKMinus1, l, count)
    {
      var i := 0;
      while i < |lK|
        invariant 0 <= i <= |lK| && forall j :: 0 <= j < i ==> lK[j].candidate != l
      {
        if lK[i].candidate == l {
          return lK[i].count;
        }
        i := i + 1;
      }
      count := 0;
      i := 0;
      while i < |lKMinus1|
        invariant 0 <= i <= |lKMinus1|
        invariant forall j :: 0 <= j < i && lKMinus1[j].candidate <= l ==> lKMinus1[j].count <= count
        invariant count == 0 || exists j :: 0 <= j < i && lKMinus1[j].candidate <= l && lKMinus1[j].count == count
      {
        if lKMinus1[i].candidate <= l && lKMinus1[i].count > count {
          count := lKMinus1[i].count;
        }
        i := i + 1;
      }
    }

    // The closure of a candidate that is no key.
    method ClosureFor(l: FunQuadruple, lKMinus1: FunLevel, lK: FunLevel, ghost k: nat) returns (closure: Vertical)
      requires IsCounted(l, k, relation) && HasQuasiclosure(l, relation) && l.count != |relation.rows| && |relation.rows| > 0
      requires IsRPrime(rPrime, relation) && IsLevelOf(lK, k + 1, relation)
      requires forall a :: a in rPrime && a !in l.candidate ==> HasCandidate(lK, l.candidate + {a})
      ensures HasClosure(l.(closure := closure), relation)
    {
      hide HasQuasiclosure, IsLevelOf, HasClosure, IsCounted, IsRPrime, ClassCount, HasCandidate, DeterminedBelow;
      hide HasCount, IsLargestCount;
      var n := relation.numColumns;
      InRelation(l, rPrime, k, relation);
      closure := l.quasiclosure;
      var rest := rPrime - l.quasiclosure;
      var a := FindFrom(rest, 0, n);
      DeterminedStart(l, rest, a, relation);
      while a < n
        invariant a <= n && (a < n ==> a in rest)
        invariant closure == l.quasiclosure + DeterminedBelow(l, rest, a, relation)
        decreases n - a
      {
        var count := FastCount(lKMinus1, lK, l.candidate + {a});
        FastCountIs(l, lK, k, a, count, relation);
        DeterminedStep(l, rest, a, FindNext(rest, a, n), relation);
        if count == l.count {
          closure := closure + {a};
        }
        a := FindNext(rest, a, n);
      }
      ClosureIs(l, k, rPrime, relation, closure);
    }

    // Sets the closures of the level below the current one.
    method ComputeClosure(lKMinus1: FunLevel, lK: FunLevel, ghost k: nat) returns (level: FunLevel)
      requires IsLevelOf(lKMinus1, k, relation) && IsLevelOf(lK, k + 1, relation) && IsRPrime(rPrime, relation)
      requires |relation.rows| > 0 ==> Extends(lK, lKMinus1, rPrime, relation)
      requires |relation.rows| > 0 ==>
        forall i :: 0 <= i < |lKMinus1| ==> HasQuasiclosure(lKMinus1[i], relation) && HasKeyClosure(lKMinus1[i], relation)
      ensures |level| == |lKMinus1| && forall i :: 0 <= i < |level| ==> level[i] == lKMinus1[i].(closure := level[i].closure)
      ensures |relation.rows| > 0 ==> forall i :: 0 <= i < |level| ==> HasClosure(level[i], relation)
      ensures |relation.rows| == 0 ==> level == lKMinus1
    {
      hide HasQuasiclosure, HasClosure, IsLevelOf, IsCounted, HasCandidate, HasKeyClosure, IsRPrime;
      level := lKMinus1;
      var i := 0;
      while i < |level|
        invariant 0 <= i <= |level| == |lKMinus1|
        invariant forall j :: 0 <= j < |level| ==> level[j] == lKMinus1[j].(closure := level[j].closure)
        invariant forall j :: i <= j < |level| ==> level[j] == lKMinus1[j]
        invariant |relation.rows| > 0 ==> forall j :: 0 <= j < i ==> HasClosure(level[j], relation)
        invariant |relation.rows| == 0 ==> level == lKMinus1
      {
        LevelCounts(lKMinus1, k, relation);
        EmptyRelationCounts(lKMinus1[i], k, relation);
        if IsKey(level[i]) {
          if |relation.rows| > 0 {
            KeyHasClosure(level[i], k, relation);
          }
        } else {
          var closure := ClosureFor(level[i], level, lK, k);
          level := level[i := level[i].(closure := closure)];
        }
        i := i + 1;
      }
    }

    // Sets the quasi-closures of a level, and the closures of its keys.
    method ComputeQuasiClosure(lKMinus1: FunLevel, lK: FunLevel, ghost k: nat) returns (level: FunLevel)
      requires IsLevelOf(lKMinus1, k, relation) && IsLevelOf(lK, k + 1, relation) && r == relation.Columns()
      requires |relation.rows| > 0 ==> forall i :: 0 <= i < |lKMinus1| ==> HasClosure(lKMinus1[i], relation)
      requires forall i :: 0 <= i < |lK| ==> lK[i].closure == {} && lK[i].quasiclosure == {}
      ensures |level| == |lK|
      ensures forall i :: 0 <= i < |level| ==> level[i].candidate == lK[i].candidate && level[i].count == lK[i].count
      ensures forall i :: 0 <= i < |level| ==> HasKeyClosure(level[i], relation)
      ensures |relation.rows| > 0 ==> forall i :: 0 <= i < |level| ==> HasQuasiclosure(level[i], relation)
      ensures forall i :: 0 <= i < |level| ==> GathersClosures(level[i], lKMinus1, |lKMinus1|)
    {
      hide HasQuasiclosure, HasClosure, IsLevelOf, IsCounted, InClosureBelow;
      level := lK;
      LevelCounts(lKMinus1, k, relation);
      LevelCounts(lK, k + 1, relation);
      var i := 0;
      while i < |level|
        invariant 0 <= i <= |level| == |lK|
        invariant forall j :: 0 <= j < |level| ==> level[j].candidate == lK[j].candidate && level[j].count == lK[j].count
        invariant forall j :: i <= j < |level| ==> level[j] == lK[j]
        invariant forall j :: 0 <= j < i ==> HasKeyClosure(level[j], relation)
        invariant |relation.rows| > 0 ==> forall j :: 0 <= j < i ==> HasQuasiclosure(level[j], relation)
        invariant forall j :: 0 <= j < i ==> GathersClosures(level[j], lKMinus1, |lKMinus1|)
      {
        var quasiclosure := QuasiClosureFor(level[i], lKMinus1, k);
        level := level[i := level[i].(closure := if IsKey(level[i]) then r else level[i].closure, quasiclosure := quasiclosure)];
        QuasiclosureOnly(level[i], lK[i].(quasiclosure := quasiclosure), relation);
        i := i + 1;
      }
    }

    method QuasiClosureFor(l: FunQuadruple, lKMinus1: FunLevel, ghost k: nat) returns (quasiclosure: Vertical)
      requires IsLevelOf(lKMinus1, k, relation) && IsCounted(l, k + 1, relation)
      requires |relation.rows| > 0 ==> forall i :: 0 <= i < |lKMinus1| ==> HasClosure(lKMinus1[i], relation)
      ensures |relation.rows| > 0 ==> HasQuasiclosure(l.(quasiclosure := quasiclosure), relation)
      ensures GathersClosures(l.(quasiclosure := quasiclosure), lKMinus1, |lKMinus1|)
    {
      hide HasQuasiclosure, HasClosure, IsLevelOf, IsCounted, GathersClosures;
      quasiclosure := l.candidate;
      GatheredNothing(l, lKMinus1);
      LevelCounts(lKMinus1, k, relation);
      CandidateIsQuasiclosure(l, k + 1, relation);
      var i := 0;
      while i < |lKMinus1|
        invariant 0 <= i <= |lKMinus1|
        invariant |relation.rows| > 0 ==> HasQuasiclosure(l.(quasiclosure := quasiclosure), relation)
        invariant GathersClosures(l.(quasiclosure := quasiclosure), lKMinus1, i)
      {
        GatheredMore(l.(quasiclosure := quasiclosure), lKMinus1, i);
        if lKMinus1[i].candidate <= l.candidate {
          if |relation.rows| > 0 {
            QuasiclosureMore(l, quasiclosure, lKMinus1[i], k, relation);
          }
          quasiclosure := quasiclosure + lKMinus1[i].closure;
        }
        i := i + 1;
      }
    }

    // Whether a listed left-hand side lies inside x.
    method SubsetExists(lhsSet: set<Vertical>, x: Vertical) returns (exists_already: bool)
      ensures exists_already <==> exists lhs :: lhs in lhsSet && lhs <= x
    {
      var rest := lhsSet;
      while rest != {}
        invariant rest <= lhsSet && forall lhs :: lhs in lhsSet && lhs !in rest ==> !(lhs <= x)
        decreases rest
      {
        var lhs :| lhs in rest;
        if lhs <= x {
          return true;
        }
        rest := rest - {lhs};
      }
      return false;
    }

    // One candidate: lists it for each column that its closure has beyond its quasi-closure.
    method DisplayQuadruple(l: FunQuadruple, ghost k: nat, ghost done: set<Vertical>)
      requires l.closure <= relation.Columns()
      requires |relation.rows| > 0 && k > 0 ==>
        IsShown(l, k, relation) && Shows(fds, relation, k, done, {}, 0) && l.candidate !in done
      modifies this`fds
      ensures |relation.rows| > 0 && k > 0 ==> Shows(fds, relation, k, done + {l.candidate}, {}, 0)
      ensures l.closure <= l.quasiclosure ==> fds == old(fds)
    {
      hide IsShown, Shows;
      var n := relation.numColumns;
      var news := l.closure - l.quasiclosure;
      var rhs := FindFrom(news, 0, n);
      ghost var semantic := |relation.rows| > 0 && k > 0;
      if semantic {
        ShowStart(fds, l, k, done, rhs, relation);
      }
      while rhs < n
        invariant rhs <= n && (rhs < n ==> rhs in news)
        invariant semantic ==> Shows(fds, relation, k, done, l.candidate, rhs)
        invariant l.closure <= l.quasiclosure ==> fds == old(fds)
        decreases n - rhs
      {
        var next := FindNext(news, rhs, n);
        var listed := if rhs in fds then fds[rhs] else {};
        var subsetExistsAlready := SubsetExists(listed, l.candidate);
        if semantic {
          ShowStep(fds, l, k, done, rhs, next, listed, relation);
        }
        fds := fds[rhs := if subsetExistsAlready then listed else listed + {l.candidate}];
        rhs := next;
      }
      if semantic {
        ShowEnd(fds, l, k, done, relation);
      }
    }

    // Lists what the candidates of a level determine.
    method DisplayFD(lKMinus1: FunLevel, ghost k: nat)
      requires IsLevelOf(lKMinus1, k, relation)
      requires forall i :: 0 <= i < |lKMinus1| ==> lKMinus1[i].closure <= relation.Columns()
      requires |relation.rows| > 0 && k > 0 ==>
        && (forall i :: 0 <= i < |lKMinus1| ==> IsShown(lKMinus1[i], k, relation))
        && HasUseful(lKMinus1, k, relation) && FdsUpTo(fds, relation, k - 1)
      modifies this`fds
      ensures |relation.rows| > 0 && k > 0 ==> FdsUpTo(fds, relation, k)
      ensures (forall i :: 0 <= i < |lKMinus1| ==> lKMinus1[i].closure <= lKMinus1[i].quasiclosure) ==> fds == old(fds)
    {
      hide IsShown, Shows, FdsUpTo, IsLevelOf, HasUseful, CandidatesOf;
      ghost var semantic := |relation.rows| > 0 && k > 0;
      LevelCounts(lKMinus1, k, relation);
      CandidatesStart(lKMinus1);
      if semantic {
        ShowsNothing(fds, relation, k);
      }
      var i := 0;
      while i < |lKMinus1|
        invariant 0 <= i <= |lKMinus1|
        invariant semantic ==> Shows(fds, relation, k, CandidatesOf(lKMinus1, i), {}, 0)
        invariant (forall j :: 0 <= j < |lKMinus1| ==> lKMinus1[j].closure <= lKMinus1[j].quasiclosure) ==> fds == old(fds)
      {
        CandidatesStep(lKMinus1, i);
        DisplayQuadruple(lKMinus1[i], k, CandidatesOf(lKMinus1, i));
        i := i + 1;
      }
      if semantic {
        ShowsAll(fds, relation, k, lKMinus1);
      }
    }

    // Drops the candidates with the cardinality of one of their subsets in the level below.
    method PurePrune(lKMinus1: FunLevel, lK: FunLevel) returns (pruned: FunLevel)
      ensures PrunedTo(lK, lKMinus1, |lK|, pruned)
    {
      pruned := [];
      var i := 0;
      while i < |lK|
        invariant 0 <= i <= |lK| && PrunedTo(lK, lKMinus1, i, pruned)
      {
        var erased, j := false, 0;
        while j < |lKMinus1| && !erased
          invariant 0 <= j <= |lKMinus1|
          invariant erased ==> IsNotFree(lK[i], lKMinus1)
          invariant !erased ==> forall m :: 0 <= m < j ==> !SameCountInside(lK[i], lKMinus1[m])
        {
          if lK[i].count == lKMinus1[j].count && lKMinus1[j].candidate <= lK[i].candidate {
            assert SameCountInside(lK[i], lKMinus1[j]);
            erased := true;
          }
          j := j + 1;
        }
        PruneStep(lK, lKMinus1, i, pruned);
        if !erased {
          pruned := pruned + [lK[i]];
        }
        i := i + 1;
      }
    }

    // Inserts a counted candidate in the order of Vertical::operator< unless it is there already.
    method InsertCandidate(level: FunLevel, candidate: Vertical, ghost k: nat) returns (result: FunLevel)
      requires Fitted() && IsLevelOf(level, k, relation) && IsFresh(level)
      requires candidate != {} && candidate <= relation.Columns() && |candidate| == k
      ensures IsLevelOf(result, k, relation) && IsFresh(result)
      ensures forall x :: HasCandidate(result, x) <==> HasCandidate(level, x) || x == candidate
    {
      hide ClassCount, Fitted, Less;
      var i := 0;
      while i < |level|
        invariant 0 <= i <= |level| && forall j :: 0 <= j < i ==> level[j].candidate != candidate
      {
        if level[i].candidate == candidate {
          return level;
        }
        i := i + 1;
      }
      var count := Count(candidate);
      var place := 0;
      while place < |level| && Less(level[place].candidate, candidate, relation.numColumns)
        invariant 0 <= place <= |level|
      {
        place := place + 1;
      }
      var q := NewQuadruple(candidate).(count := count);
      result := level[..place] + [q] + level[place..];
      InsertedLevel(level, q, place, k, relation);
    }

    // The extensions of the non-key candidates by non-key columns.
    method GenerateCandidate(lK: FunLevel, ghost k: nat) returns (lKPlus1: FunLevel)
      requires Fitted() && IsLevelOf(lK, k, relation) && rPrime <= relation.Columns()
      ensures IsLevelOf(lKPlus1, k + 1, relation) && IsFresh(lKPlus1)
      ensures Extends(lKPlus1, lK, rPrime, relation)
      ensures forall x :: HasCandidate(lKPlus1, x) <==> IsExtension(x, lK, rPrime, relation)
      ensures lK == [] ==> lKPlus1 == []
    {
      hide IsLevelOf, IsFresh, Extends, ExtendsUpTo, HasCandidate, Fitted, IsExtension;
      lKPlus1 := [];
      EmptyLevel(k + 1, relation);
      LevelCounts(lK, k, relation);
      ExtendsStart(lKPlus1, lK, rPrime, relation);
      var i := 0;
      while i < |lK|
        invariant 0 <= i <= |lK| && IsLevelOf(lKPlus1, k + 1, relation) && IsFresh(lKPlus1)
        invariant ExtendsUpTo(lKPlus1, lK, rPrime, relation, i, 0) && ExtendsOnly(lKPlus1, lK, rPrime, relation)
        invariant lK == [] ==> lKPlus1 == []
      {
        if !IsKey(lK[i]) {
          lKPlus1 := ExtendOne(lKPlus1, lK, i, k);
        }
        ExtendsNext(lKPlus1, lK, rPrime, relation, i);
        i := i + 1;
      }
      ExtendsAll(lKPlus1, lK, rPrime, relation);
      ExtendsExactly(lKPlus1, lK, rPrime, relation);
    }

    method ExtendOne(before: FunLevel, lK: FunLevel, i: nat, ghost k: nat) returns (lKPlus1: FunLevel)
      requires Fitted() && i < |lK| && IsCounted(lK[i], k, relation) && rPrime <= relation.Columns()
      requires IsLevelOf(before, k + 1, relation) && IsFresh(before) && ExtendsUpTo(before, lK, rPrime, relation, i, 0)
      requires ExtendsOnly(before, lK, rPrime, relation) && lK[i].count != |relation.rows|
      ensures IsLevelOf(lKPlus1, k + 1, relation) && IsFresh(lKPlus1)
      ensures ExtendsUpTo(lKPlus1, lK, rPrime, relation, i, relation.numColumns) && ExtendsOnly(lKPlus1, lK, rPrime, relation)
    {
      hide IsLevelOf, IsFresh, ExtendsUpTo, HasCandidate, Fitted, Cardinality, ExtendsOnly;
      var n := relation.numColumns;
      lKPlus1 := before;
      var rest := rPrime - lK[i].candidate;
      var a := FindFrom(rest, 0, n);
      ExtendsSkip(lKPlus1, lK, rPrime, relation, i, 0, a);
      while a < n
        invariant a <= n && (a < n ==> a in rest)
        invariant IsLevelOf(lKPlus1, k + 1, relation) && IsFresh(lKPlus1)
        invariant ExtendsUpTo(lKPlus1, lK, rPrime, relation, i, a) && ExtendsOnly(lKPlus1, lK, rPrime, relation)
        decreases n - a
      {
        ghost var level := lKPlus1;
        lKPlus1 := InsertCandidate(lKPlus1, lK[i].candidate + {a}, k + 1);
        OneMoreExtension(level, lKPlus1, lK, rPrime, relation, i, a);
        ExtendsMore(level, lKPlus1, lK, rPrime, relation, i, a, FindNext(rest, a, n));
        a := FindNext(rest, a, n);
      }
    }

    // One column of the first level.
    method StartColumn(lK: FunLevel, a: nat) returns (more: FunLevel)
      requires Fitted() && a < relation.numColumns && r == UpTo(a)
      requires ColumnsSeen(lK, a, relation) && RPrimeBelow(rPrime, a, relation) && FirstFds(fds, a, relation)
      modifies this`r, this`rPrime, this`fds
      ensures r == UpTo(a + 1)
      ensures ColumnsSeen(more, a + 1, relation) && RPrimeBelow(rPrime, a + 1, relation) && FirstFds(fds, a + 1, relation)
    {
      hide ClassCount, Fitted, ColumnsSeen, FirstFds, RPrimeBelow;
      var count := Count({a});
      var attribute := NewQuadruple({a}).(count := count);
      StartStep(lK, rPrime, fds, a, attribute, relation);
      more := lK + [attribute];
      r := r + {a};
      if !IsKey(attribute) {
        rPrime := rPrime + {a};
      }
      if count == 1 {
        fds := fds[a := {{}}];
      }
    }

    // The first level, the columns that are no keys and the constant columns.
    method StartLevel() returns (lK: FunLevel)
      requires Fitted() && r == {} && rPrime == {} && fds == map[]
      modifies this`r, this`rPrime, this`fds
      ensures r == relation.Columns() && IsRPrime(rPrime, relation)
      ensures IsLevelOf(lK, 1, relation) && IsFresh(lK)
      ensures forall a :: a in relation.Columns() ==> HasCandidate(lK, {a})
      ensures |relation.rows| > 0 ==> FdsUpTo(fds, relation, 0)
      ensures |relation.rows| == 0 ==> fds == map[]
    {
      hide ClassCount, Fitted, ColumnsSeen, FirstFds, RPrimeBelow, HasCandidate, IsLevelOf, IsFresh, IsRPrime, FdsUpTo;
      lK := [];
      StartNothing(relation);
      var a := 0;
      while a < relation.numColumns
        invariant a <= relation.numColumns && r == UpTo(a)
        invariant ColumnsSeen(lK, a, relation) && RPrimeBelow(rPrime, a, relation) && FirstFds(fds, a, relation)
      {
        lK := StartColumn(lK, a);
        a := a + 1;
      }
      FirstFdsEnd(fds, relation);
      SeenAll(lK, rPrime, relation);
    }

    // One round of the main loop.
    method Round(lKMinus1: FunLevel, lK: FunLevel, ghost k: nat) returns (nextKMinus1: FunLevel, nextK: FunLevel)
      requires Fitted() && Stands(lKMinus1, lK, fds, rPrime, k, relation) && r == relation.Columns() && lK != []
      modifies this`fds
      ensures Stands(nextKMinus1, nextK, fds, rPrime, k + 1, relation)
    {
      hide Fitted, IsLevelOf, IsFresh, HasUseful, FdsUpTo, HasQuasiclosure, HasClosure, HasKeyClosure, Extends, IsRPrime;
      hide PrunedTo, IsShown, Stands, IsLevelOf;
      StandsMeans(lKMinus1, lK, fds, rPrime, k, relation);
      var closed := ComputeClosure(lKMinus1, lK, k - 1);
      SameLevel(closed, lKMinus1, k - 1, relation);
      var quasiclosed := ComputeQuasiClosure(closed, lK, k - 1);
      SameLevel(quasiclosed, lK, k, relation);
      ClosedIsShown(closed, lKMinus1, lK, fds, rPrime, k, relation);
      ghost var before := fds;
      DisplayFD(closed, k - 1);
      DisplayedSoFar(closed, lKMinus1, lK, before, fds, rPrime, k, relation);
      nextKMinus1 := PurePrune(closed, quasiclosed);
      PruneKeepsUseful(quasiclosed, closed, nextKMinus1, k - 1, relation);
      RPrimeInside(rPrime, relation);
      nextK := GenerateCandidate(nextKMinus1, k);
      StandsAgain(lKMinus1, lK, closed, quasiclosed, nextKMinus1, nextK, before, fds, rPrime, k, relation);
    }

    // Registers every listed dependency.
    method RegisterAll()
      requires fdCollection == []
      modifies this`fdCollection
      ensures Appended(fdCollection, [], FdsOf(fds, fds.Keys))
    {
      hide Appended, FdsOf;
      var keys := fds.Keys;
      RegisteredNothing(fds);
      while keys != {}
        invariant keys <= fds.Keys && Appended(fdCollection, [], FdsOf(fds, fds.Keys - keys))
        decreases keys
      {
        var rhs :| rhs in keys;
        RegisterLhs(rhs, fds.Keys - keys);
        assert fds.Keys - keys + {rhs} == fds.Keys - (keys - {rhs});
        keys := keys - {rhs};
      }
      assert fds.Keys - keys == fds.Keys;
    }

    method RegisterLhs(rhs: nat, ghost done: set<nat>)
      requires rhs in fds && rhs !in done && Appended(fdCollection, [], FdsOf(fds, done))
      modifies this`fdCollection
      ensures Appended(fdCollection, [], FdsOf(fds, done + {rhs}))
    {
      hide Appended, FdsOf;
      var lverticals := fds[rhs];
      NoLhsYet(fds, done, rhs);
      while lverticals != {}
        invariant lverticals <= fds[rhs]
        invariant Appended(fdCollection, [], FdsOf(fds, done) + LhsFds(fds[rhs] - lverticals, rhs))
        decreases lverticals
      {
        var lhs :| lhs in lverticals;
        NextLhs(fds, done, rhs, lverticals, lhs);
        AppendOne(fdCollection, [], FdsOf(fds, done) + LhsFds(fds[rhs] - lverticals, rhs), Fd(lhs, rhs));
        fdCollection := fdCollection + [Fd(lhs, rhs)];
        lverticals := lverticals - {lhs};
      }
      LhsDone(fds, done, rhs);
    }

    // The run finds exactly the minimal dependencies, unless there are columns but no rows.
    method ExecuteInternal()
      requires Fitted() && r == {} && rPrime == {} && fds == map[] && fdCollection == []
      modifies this
      ensures |relation.rows| > 0 ==> ListsMinimalFds(fdCollection, relation)
      ensures |relation.rows| == 0 ==> fdCollection == []
      ensures ListsMinimalFds(fdCollection, relation) <==> |relation.rows| > 0 || relation.numColumns == 0
    {
      hide Fitted, Stands, IsLevelOf, IsFresh, HasCandidate, FdsUpTo, IsRPrime, Appended, ListsMinimalFds, IsShown, HasUseful;
      var lKMinus1 := [NewQuadruple({})];
      var lK := StartLevel();
      StandsAtFirst(lK, fds, rPrime, relation);
      LevelSize(lK, 1, relation);
      ghost var k := 1;
      while lK != []
        invariant Stands(lKMinus1, lK, fds, rPrime, k, relation) && r == relation.Columns() && fdCollection == []
        invariant lK != [] ==> k <= relation.numColumns
        decreases relation.numColumns + 1 - k
      {
        lKMinus1, lK := Round(lKMinus1, lK, k);
        k := k + 1;
        StandsMeans(lKMinus1, lK, fds, rPrime, k, relation);
        LevelSize(lK, k, relation);
      }
      StandsMeans(lKMinus1, lK, fds, rPrime, k, relation);
      LastIsShown(lKMinus1, lK, fds, rPrime, k, relation);
      ghost var before := fds;
      DisplayFD(lKMinus1, k - 1);
      RegisterAll();
      RunEnds(lKMinus1, lK, before, fds, rPrime, k, relation, fdCollection);
    }
  }

  // An input that shows where the run fails: with a column but no rows, the empty result lacks a constant.
  lemma NoRowsNoConstant()
    ensures var r := Relation(1, [], true); MinimalFd(r, {}, 0) && !ListsMinimalFds([], r)
  {
    var r := Relation(1, [], true);
    assert MinimalFd(r, {}, 0) && Fd({}, 0) !in [];
  }

  lemma FirstColumn(l: Vertical, n: nat)
    requires l != {} && l <= UpTo(n)
    ensures FindFrom(l, 0, n) < n
  {
    var c :| c in l;
  }

  ghost predicate Determines(l: FunQuadruple, a: nat, r: Relation) {
    ClassCount(r, l.candidate + {a}) == l.count
  }

  ghost function DeterminedBelow(l: FunQuadruple, rest: Vertical, bound: nat, r: Relation): Vertical {
    set b | b in rest && b < bound && Determines(l, b, r)
  }

  lemma DeterminedStart(l: FunQuadruple, rest: Vertical, a: nat, r: Relation)
    requires forall b :: b in rest ==> b >= a
    ensures DeterminedBelow(l, rest, a, r) == {}
  {
  }

  lemma DeterminedStep(l: FunQuadruple, rest: Vertical, a: nat, next: nat, r: Relation)
    requires a in rest && a < next && forall b :: b in rest && b > a ==> b >= next
    ensures DeterminedBelow(l, rest, next, r) ==
      DeterminedBelow(l, rest, a, r) + (if ClassCount(r, l.candidate + {a}) == l.count then {a} else {})
  {
    hide ClassCount;
  }

  lemma InRelation(l: FunQuadruple, rPrime: Vertical, k: nat, r: Relation)
    requires IsCounted(l, k, r) && IsRPrime(rPrime, r) && HasQuasiclosure(l, r)
    ensures l.candidate <= l.quasiclosure <= r.Columns() && rPrime <= r.Columns()
  {
  }

  lemma LevelCounts(level: FunLevel, k: nat, r: Relation)
    requires IsLevelOf(level, k, r)
    ensures DistinctCandidates(level) && forall i :: 0 <= i < |level| ==> IsCounted(level[i], k, r)
  {
  }

  lemma FastCountIs(l: FunQuadruple, lK: FunLevel, k: nat, a: nat, count: nat, r: Relation)
    requires IsLevelOf(lK, k + 1, r) && HasCandidate(lK, l.candidate + {a})
    requires HasCount(lK, l.candidate + {a}, count)
    ensures count == ClassCount(r, l.candidate + {a})
  {
  }

  lemma EmptyRelationCounts(q: FunQuadruple, k: nat, r: Relation)
    requires IsCounted(q, k, r)
    ensures |r.rows| == 0 ==> q.count == |r.rows|
  {
    if |r.rows| == 0 {
      CardinalityDecidesKey(r, q.candidate);
    }
  }

  lemma KeyHasClosure(q: FunQuadruple, k: nat, r: Relation)
    requires IsCounted(q, k, r) && HasKeyClosure(q, r) && q.count == |r.rows|
    ensures |r.rows| > 0 ==> HasClosure(q, r)
  {
    if |r.rows| > 0 {
      KeyCount(q, k, r);
      forall a | a in r.Columns() ensures Holds(r, q.candidate, a) {
        KeyHolds(r, q.candidate, a);
      }
    }
  }

  // Counting the extensions by non-key columns finds the whole closure.
  lemma ClosureIs(l: FunQuadruple, k: nat, rPrime: Vertical, r: Relation, closure: Vertical)
    requires IsCounted(l, k, r) && HasQuasiclosure(l, r) && l.count != |r.rows| && |r.rows| > 0 && IsRPrime(rPrime, r)
    requires closure == l.quasiclosure + DeterminedBelow(l, rPrime - l.quasiclosure, r.numColumns, r)
    ensures HasClosure(l.(closure := closure), r)
  {
    hide Holds, IsKey, ClassCount;
    KeyCount(l, k, r);
    if l.candidate == {} {
      forall b | b in rPrime ensures !Determines(l, b, r) {
        ClassCountPositive(r, l.candidate + {b});
      }
      assert closure == {};
    } else {
      forall a | a in r.Columns() ensures a in closure <==> Holds(r, l.candidate, a) {
        ClosureMember(l, k, rPrime, r, a);
      }
    }
  }

  lemma ClosureMember(l: FunQuadruple, k: nat, rPrime: Vertical, r: Relation, a: nat)
    requires IsCounted(l, k, r) && HasQuasiclosure(l, r) && IsRPrime(rPrime, r)
    requires l.candidate != {} && !IsKey(r, l.candidate) && a in r.Columns()
    ensures a in l.quasiclosure || (a in rPrime && Determines(l, a, r)) <==> Holds(r, l.candidate, a)
  {
    CardinalityDecidesFd(r, l.candidate, a);
    CardinalityDecidesKey(r, {a});
    if IsKey(r, {a}) {
      NonKeyDeterminesNoKey(r, l.candidate, a);
    }
    if a in l.quasiclosure {
      QuasiclosureHolds(l, r, a);
    }
  }

  lemma QuasiclosureHolds(l: FunQuadruple, r: Relation, a: nat)
    requires HasQuasiclosure(l, r) && a in l.quasiclosure
    ensures Holds(r, l.candidate, a)
  {
    if a in l.candidate {
      MemberHolds(r, l.candidate, a);
    } else {
      var s: Vertical :| s < l.candidate && Holds(r, s, a);
      HoldsMonotone(r, s, l.candidate, a);
    }
  }

  lemma CandidateIsQuasiclosure(l: FunQuadruple, k: nat, r: Relation)
    requires IsCounted(l, k, r)
    ensures HasQuasiclosure(l.(quasiclosure := l.candidate), r)
  {
  }

  lemma QuasiclosureOnly(p: FunQuadruple, q: FunQuadruple, r: Relation)
    requires p.candidate == q.candidate && p.quasiclosure == q.quasiclosure
    ensures HasQuasiclosure(p, r) <==> HasQuasiclosure(q, r)
  {
  }

  lemma GatheredNothing(l: FunQuadruple, lKMinus1: FunLevel)
    ensures GathersClosures(l.(quasiclosure := l.candidate), lKMinus1, 0)
  {
  }

  lemma GatheredMore(q: FunQuadruple, lKMinus1: FunLevel, i: nat)
    requires GathersClosures(q, lKMinus1, i) && i < |lKMinus1|
    ensures var more := if lKMinus1[i].candidate <= q.candidate then q.quasiclosure + lKMinus1[i].closure else q.quasiclosure;
      GathersClosures(q.(quasiclosure := more), lKMinus1, i + 1)
  {
    forall a ensures InClosureBelow(a, q.candidate, lKMinus1, i + 1) <==>
      InClosureBelow(a, q.candidate, lKMinus1, i) || (lKMinus1[i].candidate <= q.candidate && a in lKMinus1[i].closure)
    {
    }
  }

  lemma QuasiclosureMore(l: FunQuadruple, quasiclosure: Vertical, s: FunQuadruple, k: nat, r: Relation)
    requires IsCounted(l, k + 1, r) && IsCounted(s, k, r) && HasClosure(s, r) && s.candidate <= l.candidate
    requires HasQuasiclosure(l.(quasiclosure := quasiclosure), r)
    ensures HasQuasiclosure(l.(quasiclosure := quasiclosure + s.closure), r)
  {
    assert s.candidate != l.candidate;
    forall a | a in s.closure ensures exists t: Vertical :: t < l.candidate && Holds(r, t, a) {
      assert s.candidate < l.candidate && Holds(r, s.candidate, a);
    }
  }

  // ----- what the map of dependencies lists -----

  ghost predicate Listed(fds: map<nat, set<Vertical>>, x: Vertical, a: nat) {
    a in fds && x in fds[a]
  }

  ghost predicate FdsUpTo(fds: map<nat, set<Vertical>>, r: Relation, k: nat) {
    forall x: Vertical, a: nat :: Listed(fds, x, a) <==> MinimalFd(r, x, a) && |x| <= k
  }

  // Halfway through level k: the candidates in done, and current for the right-hand sides below bound.
  ghost predicate Shows(fds: map<nat, set<Vertical>>, r: Relation, k: nat, done: set<Vertical>, current: Vertical, bound: nat) {
    forall x: Vertical, a: nat :: Listed(fds, x, a) <==>
      MinimalFd(r, x, a) && (|x| < k || (|x| == k && (x in done || (x == current && a < bound))))
  }

  // What a candidate shows: columns that it determines, and all those that it determines minimally.
  ghost predicate IsShown(q: FunQuadruple, k: nat, r: Relation) {
    && q.candidate <= r.Columns() && |q.candidate| == k
    && (forall a :: a in q.closure - q.quasiclosure ==> a in r.Columns() && a !in q.candidate && Holds(r, q.candidate, a))
    && (forall a :: MinimalFd(r, q.candidate, a) ==> a in q.closure - q.quasiclosure)
  }

  lemma ShowStart(fds: map<nat, set<Vertical>>, q: FunQuadruple, k: nat, done: set<Vertical>, bound: nat, r: Relation)
    requires IsShown(q, k, r) && Shows(fds, r, k, done, {}, 0)
    requires forall a :: a in q.closure - q.quasiclosure ==> a >= bound
    ensures Shows(fds, r, k, done, q.candidate, bound)
  {
    hide MinimalFd, Listed;
  }

  // A column is listed for the candidate exactly when no listed left-hand side lies inside it.
  lemma ShowStep(fds: map<nat, set<Vertical>>, q: FunQuadruple, k: nat, done: set<Vertical>, a: nat, next: nat,
                 listed: set<Vertical>, r: Relation)
    requires IsShown(q, k, r) && Shows(fds, r, k, done, q.candidate, a) && q.candidate !in done
    requires a in q.closure - q.quasiclosure && a < next && listed == if a in fds then fds[a] else {}
    requires forall b :: b in q.closure - q.quasiclosure && b > a ==> b >= next
    ensures Shows(fds[a := if exists lhs :: lhs in listed && lhs <= q.candidate then listed else listed + {q.candidate}],
                  r, k, done, q.candidate, next)
  {
    hide MinimalFd;
    var exists_already := exists lhs :: lhs in listed && lhs <= q.candidate;
    var news := if exists_already then listed else listed + {q.candidate};
    assert exists_already <==> !MinimalFd(r, q.candidate, a) by {
      ShowDecides(fds, q, k, done, a, listed, r);
    }
    NextBound(q, k, r, a, next);
    var fds' := fds[a := news];
    forall x: Vertical, b: nat ensures Listed(fds', x, b) <==>
      MinimalFd(r, x, b) && (|x| < k || (|x| == k && (x in done || (x == q.candidate && b < next))))
    {
      assert Listed(fds, x, b) <==>
        MinimalFd(r, x, b) && (|x| < k || (|x| == k && (x in done || (x == q.candidate && b < a))));
      if b == a {
        assert Listed(fds', x, b) <==> x in listed || (x == q.candidate && !exists_already);
      } else {
        assert Listed(fds', x, b) <==> Listed(fds, x, b);
      }
    }
  }

  lemma ShowDecides(fds: map<nat, set<Vertical>>, q: FunQuadruple, k: nat, done: set<Vertical>, a: nat,
                    listed: set<Vertical>, r: Relation)
    requires IsShown(q, k, r) && Shows(fds, r, k, done, q.candidate, a) && q.candidate !in done
    requires a in q.closure - q.quasiclosure && listed == if a in fds then fds[a] else {}
    ensures (exists lhs :: lhs in listed && lhs <= q.candidate) <==> !MinimalFd(r, q.candidate, a)
  {
    hide MinimalFd;
    assert forall x :: x in listed <==> Listed(fds, x, a);
    if MinimalFd(r, q.candidate, a) {
      forall lhs | lhs in listed ensures !(lhs <= q.candidate) {
        NoMinimalInside(r, q.candidate, lhs, a);
        assert q.candidate !in listed;
      }
    } else {
      var y := MinimalInside(r, q.candidate, a);
      assert y != q.candidate;
      SmallerSubset(y, q.candidate);
      assert y in listed;
    }
  }

  lemma NoMinimalInside(r: Relation, x: Vertical, y: Vertical, a: nat)
    requires MinimalFd(r, x, a)
    ensures MinimalFd(r, y, a) && y <= x ==> y == x
  {
  }

  lemma SmallerSubset(y: Vertical, x: Vertical)
    requires y < x
    ensures |y| < |x|
  {
    assert x == y + (x - y);
    assert x - y != {};
  }

  lemma NextBound(q: FunQuadruple, k: nat, r: Relation, a: nat, next: nat)
    requires IsShown(q, k, r) && forall b :: b in q.closure - q.quasiclosure && b > a ==> b >= next
    ensures forall b: nat :: MinimalFd(r, q.candidate, b) && b < next ==> b <= a
  {
    hide MinimalFd;
  }

  lemma ShowEnd(fds: map<nat, set<Vertical>>, q: FunQuadruple, k: nat, done: set<Vertical>, r: Relation)
    requires IsShown(q, k, r) && Shows(fds, r, k, done, q.candidate, r.numColumns)
    ensures Shows(fds, r, k, done + {q.candidate}, {}, 0)
  {
    forall a: nat | MinimalFd(r, q.candidate, a) ensures a < r.numColumns {
    }
    hide MinimalFd, Listed;
  }

  lemma ShowsNothing(fds: map<nat, set<Vertical>>, r: Relation, k: nat)
    requires k > 0 && FdsUpTo(fds, r, k - 1)
    ensures Shows(fds, r, k, {}, {}, 0)
  {
    hide MinimalFd, Listed;
  }

  ghost function CandidatesOf(level: FunLevel, i: nat): set<Vertical>
    requires i <= |level|
  {
    set q | q in level[..i] :: q.candidate
  }

  lemma CandidatesStart(level: FunLevel)
    ensures CandidatesOf(level, 0) == {}
  {
  }

  lemma CandidatesStep(level: FunLevel, i: nat)
    requires i < |level| && DistinctCandidates(level)
    ensures CandidatesOf(level, i + 1) == CandidatesOf(level, i) + {level[i].candidate}
    ensures level[i].candidate !in CandidatesOf(level, i)
  {
    assert level[..i + 1] == level[..i] + [level[i]];
  }

  // The candidates of the level include every minimal left-hand side of its size.
  lemma ShowsAll(fds: map<nat, set<Vertical>>, r: Relation, k: nat, level: FunLevel)
    requires Shows(fds, r, k, CandidatesOf(level, |level|), {}, 0) && HasUseful(level, k, r) && k > 0
    ensures FdsUpTo(fds, r, k)
  {
    hide MinimalFd, Listed, IsUseful;
    forall x: Vertical, a: nat | MinimalFd(r, x, a) && |x| == k ensures x in CandidatesOf(level, |level|) {
      MinimalLhsIsUseful(r, x, a);
      assert HasCandidate(level, x);
      var i :| 0 <= i < |level| && level[i].candidate == x;
      assert level[i] in level[..|level|];
    }
  }

  // ----- pruning -----

  predicate SameCountInside(l: FunQuadruple, s: FunQuadruple) {
    l.count == s.count && s.candidate <= l.candidate
  }

  ghost predicate IsNotFree(l: FunQuadruple, lKMinus1: FunLevel) {
    exists j :: 0 <= j < |lKMinus1| && SameCountInside(l, lKMinus1[j])
  }

  // pruned lists the free ones among the first i candidates in their order.
  ghost predicate PrunedTo(lK: FunLevel, lKMinus1: FunLevel, i: nat, pruned: FunLevel) {
    && i <= |lK|
    && (forall q :: q in pruned <==> q in lK[..i] && !IsNotFree(q, lKMinus1))
    && (DistinctCandidates(lK) ==> DistinctCandidates(pruned))
  }

  lemma PruneStep(lK: FunLevel, lKMinus1: FunLevel, i: nat, pruned: FunLevel)
    requires i < |lK| && PrunedTo(lK, lKMinus1, i, pruned)
    ensures PrunedTo(lK, lKMinus1, i + 1, if IsNotFree(lK[i], lKMinus1) then pruned else pruned + [lK[i]])
  {
    hide IsNotFree;
    assert lK[..i + 1] == lK[..i] + [lK[i]];
    if DistinctCandidates(lK) {
      forall q | q in pruned ensures q.candidate != lK[i].candidate {
        var j :| 0 <= j < i && lK[j] == q;
      }
      assert forall j :: 0 <= j < |pruned| ==> pruned[j] in pruned;
    }
  }

  // Pruning keeps the useful candidates, and what is known of the quadruples.
  lemma PruneKeepsUseful(lK: FunLevel, lKMinus1: FunLevel, pruned: FunLevel, k: nat, r: Relation)
    requires PrunedTo(lK, lKMinus1, |lK|, pruned) && IsLevelOf(lK, k + 1, r) && IsLevelOf(lKMinus1, k, r)
    ensures IsLevelOf(pruned, k + 1, r) && forall i :: 0 <= i < |pruned| ==> pruned[i] in lK
    ensures |r.rows| > 0 && HasUseful(lK, k + 1, r) ==> HasUseful(pruned, k + 1, r)
  {
    hide IsCounted, IsNotFree, IsUseful;
    assert lK[..|lK|] == lK;
    forall i | 0 <= i < |pruned| ensures pruned[i] in lK && IsCounted(pruned[i], k + 1, r) {
      assert pruned[i] in pruned;
    }
    if |r.rows| > 0 && HasUseful(lK, k + 1, r) {
      forall x: Vertical | IsUseful(r, x) && |x| == k + 1 ensures HasCandidate(pruned, x) {
        assert HasCandidate(lK, x);
        var i :| 0 <= i < |lK| && lK[i].candidate == x;
        UsefulIsFree(lK[i], lKMinus1, k, r);
        assert lK[i] in lK[..|lK|];
        assert lK[i] in pruned;
      }
    }
  }

  lemma UsefulIsFree(l: FunQuadruple, lKMinus1: FunLevel, k: nat, r: Relation)
    requires IsUseful(r, l.candidate) && IsCounted(l, k + 1, r) && IsLevelOf(lKMinus1, k, r) && |r.rows| > 0
    ensures !IsNotFree(l, lKMinus1)
  {
    hide IsUseful, Cardinality;
    forall j | 0 <= j < |lKMinus1| ensures !SameCountInside(l, lKMinus1[j]) {
      if lKMinus1[j].candidate <= l.candidate {
        assert IsCounted(lKMinus1[j], k, r);
        assert lKMinus1[j].candidate != l.candidate;
        UsefulGrows(r, lKMinus1[j].candidate, l.candidate);
      }
    }
  }

  // With no rows all counts are zero and pruning against the level of the empty set drops everything.
  lemma EmptyRelationPrunes(lK: FunLevel, lKMinus1: FunLevel, pruned: FunLevel, r: Relation)
    requires PrunedTo(lK, lKMinus1, |lK|, pruned) && IsLevelOf(lK, 1, r) && |r.rows| == 0
    requires |lKMinus1| == 1 && lKMinus1[0].candidate == {} && lKMinus1[0].count == 0
    ensures pruned == []
  {
    forall q | q in lK[..|lK|] ensures IsNotFree(q, lKMinus1) {
      var i :| 0 <= i < |lK| && lK[i] == q;
      EmptyRelationCounts(lK[i], 1, r);
      assert SameCountInside(q, lKMinus1[0]);
    }
    HasMember(pruned);
  }

  // ----- generating -----

  ghost predicate IsFresh(level: FunLevel) {
    forall i :: 0 <= i < |level| ==> level[i].closure == {} && level[i].quasiclosure == {}
  }

  lemma EmptyLevel(k: nat, r: Relation)
    ensures IsLevelOf([], k, r) && IsFresh([]) && forall x :: !HasCandidate([], x)
  {
  }

  lemma InsertedLevel(level: FunLevel, q: FunQuadruple, place: nat, k: nat, r: Relation)
    requires IsLevelOf(level, k, r) && IsFresh(level) && place <= |level| && IsCounted(q, k, r)
    requires q.closure == {} && q.quasiclosure == {} && !HasCandidate(level, q.candidate)
    ensures var result := level[..place] + [q] + level[place..];
      && IsLevelOf(result, k, r) && IsFresh(result)
      && forall x :: HasCandidate(result, x) <==> HasCandidate(level, x) || x == q.candidate
  {
    hide IsCounted;
    var result := level[..place] + [q] + level[place..];
    forall x ensures HasCandidate(result, x) <==> HasCandidate(level, x) || x == q.candidate {
      assert result[place] == q;
      if i :| 0 <= i < |level| && level[i].candidate == x {
        assert result[if i < place then i else i + 1].candidate == x;
      }
      if i :| 0 <= i < |result| && i != place && result[i].candidate == x {
        assert level[if i < place then i else i - 1].candidate == x;
      }
    }
  }

  // The extensions of the first i candidates are there, and of the next one those by columns below bound.
  ghost predicate ExtendsUpTo(level: FunLevel, previous: FunLevel, rPrime: Vertical, r: Relation, i: nat, bound: nat) {
    forall j, a :: (0 <= j < |previous| && (j < i || (j == i && a < bound)) && previous[j].count != |r.rows|
      && a in rPrime && a !in previous[j].candidate) ==> HasCandidate(level, previous[j].candidate + {a})
  }

  lemma ExtendsStart(level: FunLevel, previous: FunLevel, rPrime: Vertical, r: Relation)
    ensures ExtendsUpTo(level, previous, rPrime, r, 0, 0)
  {
  }

  lemma ExtendsSkip(level: FunLevel, previous: FunLevel, rPrime: Vertical, r: Relation, i: nat, bound: nat, next: nat)
    requires ExtendsUpTo(level, previous, rPrime, r, i, bound) && i < |previous|
    requires forall a :: a in rPrime - previous[i].candidate && a >= bound ==> a >= next
    ensures ExtendsUpTo(level, previous, rPrime, r, i, next)
  {
    hide HasCandidate;
    assert forall a :: a in rPrime && a !in previous[i].candidate ==> a in rPrime - previous[i].candidate;
  }

  lemma ExtendsMore(level: FunLevel, more: FunLevel, previous: FunLevel, rPrime: Vertical, r: Relation, i: nat, a: nat, next: nat)
    requires ExtendsUpTo(level, previous, rPrime, r, i, a) && i < |previous|
    requires forall x :: HasCandidate(more, x) <==> HasCandidate(level, x) || x == previous[i].candidate + {a}
    requires forall b :: b in rPrime - previous[i].candidate && b > a ==> b >= next
    ensures ExtendsUpTo(more, previous, rPrime, r, i, next)
  {
    hide HasCandidate;
    assert forall b :: b in rPrime && b !in previous[i].candidate ==> b in rPrime - previous[i].candidate;
  }

  lemma ExtendsNext(level: FunLevel, previous: FunLevel, rPrime: Vertical, r: Relation, i: nat)
    requires i < |previous| && rPrime <= r.Columns()
    requires if previous[i].count == |r.rows| then ExtendsUpTo(level, previous, rPrime, r, i, 0)
      else ExtendsUpTo(level, previous, rPrime, r, i, r.numColumns)
    ensures ExtendsUpTo(level, previous, rPrime, r, i + 1, 0)
  {
    hide HasCandidate;
  }

  lemma ExtendsAll(level: FunLevel, previous: FunLevel, rPrime: Vertical, r: Relation)
    requires ExtendsUpTo(level, previous, rPrime, r, |previous|, 0)
    ensures Extends(level, previous, rPrime, r)
  {
    hide HasCandidate;
  }

  lemma OneMoreExtension(level: FunLevel, more: FunLevel, previous: FunLevel, rPrime: Vertical, r: Relation, i: nat, a: nat)
    requires ExtendsOnly(level, previous, rPrime, r) && i < |previous| && previous[i].count != |r.rows|
    requires a in rPrime && a !in previous[i].candidate
    requires forall x :: HasCandidate(more, x) <==> HasCandidate(level, x) || x == previous[i].candidate + {a}
    ensures ExtendsOnly(more, previous, rPrime, r)
  {
    hide HasCandidate;
  }

  lemma ExtendsExactly(level: FunLevel, previous: FunLevel, rPrime: Vertical, r: Relation)
    requires Extends(level, previous, rPrime, r) && ExtendsOnly(level, previous, rPrime, r)
    ensures forall x :: HasCandidate(level, x) <==> IsExtension(x, previous, rPrime, r)
  {
    hide HasCandidate;
  }

  // Extending useful candidates reaches every useful set of the next size.
  lemma ExtendsUseful(level: FunLevel, previous: FunLevel, rPrime: Vertical, k: nat, r: Relation)
    requires |r.rows| > 0 && k > 0 && IsLevelOf(previous, k, r) && HasUseful(previous, k, r) && IsRPrime(rPrime, r)
    requires Extends(level, previous, rPrime, r)
    ensures HasUseful(level, k + 1, r)
  {
    hide IsUseful, ClassCount, IsKey;
    forall x: Vertical | IsUseful(r, x) && |x| == k + 1 ensures HasCandidate(level, x) {
      assert x != {};
      var b :| b in x;
      UsefulSubset(r, x, b);
      UsefulColumn(r, x, b);
      assert HasCandidate(previous, x - {b});
      var i :| 0 <= i < |previous| && previous[i].candidate == x - {b};
      assert IsCounted(previous[i], k, r);
      KeyCount(previous[i], k, r);
      UsefulInside(r, x);
      CardinalityDecidesKey(r, {b});
      assert b in rPrime && previous[i].candidate + {b} == x;
    }
  }

  lemma UsefulInside(r: Relation, x: Vertical)
    requires IsUseful(r, x)
    ensures x <= r.Columns()
  {
  }

  // ----- the first level -----

  lemma AppendColumn(level: FunLevel, q: FunQuadruple, a: nat, r: Relation)
    requires IsLevelOf(level, 1, r) && IsFresh(level) && a < r.numColumns
    requires q.candidate == {a} && q.count == ClassCount(r, {a}) && q.closure == {} && q.quasiclosure == {}
    requires forall x :: HasCandidate(level, x) ==> forall b :: b in x ==> b < a
    ensures IsLevelOf(level + [q], 1, r) && IsFresh(level + [q])
    ensures forall x :: HasCandidate(level + [q], x) <==> HasCandidate(level, x) || x == {a}
  {
    assert !HasCandidate(level, {a}) by {
      assert a in {a};
    }
    assert level + [q] == level[..|level|] + [q] + level[|level|..];
    InsertedLevel(level, q, |level|, 1, r);
  }

  // The level has the first a columns.
  ghost predicate ColumnsSeen(level: FunLevel, a: nat, r: Relation) {
    && IsLevelOf(level, 1, r) && IsFresh(level)
    && (forall b: nat :: b < a ==> HasCandidate(level, {b}))
    && (forall x :: HasCandidate(level, x) ==> forall b :: b in x ==> b < a)
  }

  ghost predicate RPrimeBelow(rPrime: Vertical, a: nat, r: Relation) {
    forall b :: b in rPrime <==> b < a && b in r.Columns() && ClassCount(r, {b}) != |r.rows|
  }

  lemma StartNothing(r: Relation)
    ensures ColumnsSeen([], 0, r) && RPrimeBelow({}, 0, r) && FirstFds(map[], 0, r)
  {
    EmptyLevel(1, r);
  }

  lemma StartStep(level: FunLevel, rPrime: Vertical, fds: map<nat, set<Vertical>>, a: nat, q: FunQuadruple, r: Relation)
    requires ColumnsSeen(level, a, r) && RPrimeBelow(rPrime, a, r) && FirstFds(fds, a, r) && a < r.numColumns
    requires q == Quadruple({a}, ClassCount(r, {a}), {}, {})
    ensures ColumnsSeen(level + [q], a + 1, r)
    ensures RPrimeBelow(if q.count == |r.rows| then rPrime else rPrime + {a}, a + 1, r)
    ensures FirstFds(if q.count == 1 then fds[a := {{}}] else fds, a + 1, r)
  {
    hide ClassCount, HasCandidate, IsLevelOf, IsFresh;
    AppendColumn(level, q, a, r);
    FirstFdsStep(fds, a, r);
  }

  lemma SeenAll(level: FunLevel, rPrime: Vertical, r: Relation)
    requires ColumnsSeen(level, r.numColumns, r) && RPrimeBelow(rPrime, r.numColumns, r)
    ensures IsLevelOf(level, 1, r) && IsFresh(level) && IsRPrime(rPrime, r)
    ensures forall a :: a in r.Columns() ==> HasCandidate(level, {a})
  {
    hide HasCandidate, IsLevelOf, IsFresh, ClassCount;
  }

  // The constant columns below a.
  ghost predicate FirstFds(fds: map<nat, set<Vertical>>, a: nat, r: Relation) {
    && (forall b :: b in fds <==> b < a && b in r.Columns() && ClassCount(r, {b}) == 1)
    && (forall b :: b in fds ==> fds[b] == {{}})
  }

  lemma FirstFdsStep(fds: map<nat, set<Vertical>>, a: nat, r: Relation)
    requires FirstFds(fds, a, r) && a < r.numColumns
    ensures FirstFds(if ClassCount(r, {a}) == 1 then fds[a := {{}}] else fds, a + 1, r)
  {
    hide ClassCount;
  }

  lemma FirstFdsEnd(fds: map<nat, set<Vertical>>, r: Relation)
    requires FirstFds(fds, r.numColumns, r)
    ensures |r.rows| > 0 ==> FdsUpTo(fds, r, 0)
    ensures |r.rows| == 0 ==> fds == map[]
  {
    hide ClassCount, Holds;
    if |r.rows| > 0 {
      forall x: Vertical, a: nat ensures Listed(fds, x, a) <==> MinimalFd(r, x, a) && |x| <= 0 {
        assert |x| <= 0 ==> x == {};
        if a in r.Columns() {
          ConstantCardinality(r, a);
        }
      }
    } else {
      forall b | b in r.Columns() ensures ClassCount(r, {b}) != 1 {
        CardinalityDecidesKey(r, {b});
      }
    }
  }

  // ----- the main loop -----

  // What the loop keeps: lK is level k, not yet pruned, and lKMinus1 the level below, pruned.
  ghost predicate Stands(lKMinus1: FunLevel, lK: FunLevel, fds: map<nat, set<Vertical>>, rPrime: Vertical, k: nat, r: Relation) {
    && k >= 1 && IsLevelOf(lKMinus1, k - 1, r) && IsLevelOf(lK, k, r) && IsFresh(lK) && IsRPrime(rPrime, r)
    && (|r.rows| > 0 ==>
          && (forall i :: 0 <= i < |lKMinus1| ==> HasQuasiclosure(lKMinus1[i], r) && HasKeyClosure(lKMinus1[i], r))
          && Extends(lK, lKMinus1, rPrime, r) && HasUseful(lK, k, r)
          && (if k == 1 then lKMinus1 == [NewQuadruple({})] && FdsUpTo(fds, r, 0)
              else HasUseful(lKMinus1, k - 1, r) && FdsUpTo(fds, r, k - 2)))
    && (|r.rows| == 0 ==> fds == map[] && if k == 1 then lKMinus1 == [NewQuadruple({})] else lKMinus1 == [] && lK == [])
  }

  lemma StandsMeans(lKMinus1: FunLevel, lK: FunLevel, fds: map<nat, set<Vertical>>, rPrime: Vertical, k: nat, r: Relation)
    requires Stands(lKMinus1, lK, fds, rPrime, k, r)
    ensures k >= 1 && IsLevelOf(lKMinus1, k - 1, r) && IsLevelOf(lK, k, r) && IsFresh(lK) && IsRPrime(rPrime, r)
    ensures forall i :: 0 <= i < |lK| ==> lK[i].closure == {} && lK[i].quasiclosure == {}
    ensures |r.rows| > 0 ==> Extends(lK, lKMinus1, rPrime, r)
    ensures |r.rows| > 0 ==>
      forall i :: 0 <= i < |lKMinus1| ==> HasQuasiclosure(lKMinus1[i], r) && HasKeyClosure(lKMinus1[i], r)
  {
    hide HasQuasiclosure, HasKeyClosure, Extends, HasUseful, FdsUpTo, IsLevelOf, IsRPrime;
  }

  lemma StandsAtFirst(lK: FunLevel, fds: map<nat, set<Vertical>>, rPrime: Vertical, r: Relation)
    requires IsLevelOf(lK, 1, r) && IsFresh(lK) && IsRPrime(rPrime, r)
    requires forall a :: a in r.Columns() ==> HasCandidate(lK, {a})
    requires |r.rows| > 0 ==> FdsUpTo(fds, r, 0)
    requires |r.rows| == 0 ==> fds == map[]
    ensures Stands([NewQuadruple({})], lK, fds, rPrime, 1, r)
  {
    hide IsLevelOf, FdsUpTo, HasCandidate;
    assert IsLevelOf([NewQuadruple({})], 0, r) by {
      FirstLevelOf(r);
    }
    forall x: Vertical | IsUseful(r, x) && |x| == 1 ensures HasCandidate(lK, x) {
      assert x != {};
      var a :| a in x;
      OneColumn(x, a);
      UsefulInside(r, x);
    }
    assert forall a: nat :: {} + {a} == {a};
  }

  lemma FirstLevelOf(r: Relation)
    ensures IsLevelOf([NewQuadruple({})], 0, r)
  {
  }

  lemma OneColumn(x: Vertical, a: nat)
    requires |x| == 1 && a in x
    ensures x == {a}
  {
    assert |x - {a}| == 0;
    assert x == x - {a} + {a};
  }

  lemma SameLevel(level: FunLevel, before: FunLevel, k: nat, r: Relation)
    requires IsLevelOf(before, k, r) && |level| == |before|
    requires forall i :: 0 <= i < |level| ==> level[i].candidate == before[i].candidate && level[i].count == before[i].count
    ensures IsLevelOf(level, k, r)
  {
  }

  lemma RPrimeInside(rPrime: Vertical, r: Relation)
    requires IsRPrime(rPrime, r)
    ensures rPrime <= r.Columns()
  {
  }

  // With closure and quasi-closure set, a candidate shows exactly its minimal dependencies.
  lemma ClosureIsShown(q: FunQuadruple, k: nat, r: Relation)
    requires IsCounted(q, k, r) && HasQuasiclosure(q, r) && HasClosure(q, r) && k > 0
    ensures IsShown(q, k, r) && q.closure <= r.Columns()
  {
    forall a: nat | a in q.quasiclosure ensures !MinimalFd(r, q.candidate, a) {
      if a !in q.candidate {
        var s: Vertical :| s < q.candidate && Holds(r, s, a);
      }
    }
  }

  lemma ClosedIsShown(closed: FunLevel, lKMinus1: FunLevel, lK: FunLevel, fds: map<nat, set<Vertical>>, rPrime: Vertical,
                      k: nat, r: Relation)
    requires Stands(lKMinus1, lK, fds, rPrime, k, r) && |closed| == |lKMinus1|
    requires forall i :: 0 <= i < |closed| ==> closed[i] == lKMinus1[i].(closure := closed[i].closure)
    requires |r.rows| > 0 ==> forall i :: 0 <= i < |closed| ==> HasClosure(closed[i], r)
    requires |r.rows| == 0 ==> closed == lKMinus1
    ensures forall i :: 0 <= i < |closed| ==> closed[i].closure <= r.Columns()
    ensures |r.rows| > 0 && k > 1 ==>
      && (forall i :: 0 <= i < |closed| ==> IsShown(closed[i], k - 1, r))
      && HasUseful(closed, k - 1, r) && FdsUpTo(fds, r, k - 2)
    ensures k == 1 || |r.rows| == 0 ==> forall i :: 0 <= i < |closed| ==> closed[i].closure <= closed[i].quasiclosure
  {
    hide HasQuasiclosure, HasKeyClosure, Extends, FdsUpTo, IsRPrime, IsShown, IsCounted, IsUseful;
    if |r.rows| > 0 && k > 1 {
      forall i | 0 <= i < |closed| ensures IsShown(closed[i], k - 1, r) && closed[i].closure <= r.Columns() {
        assert IsCounted(lKMinus1[i], k - 1, r) && HasQuasiclosure(lKMinus1[i], r);
        QuasiclosureOnly(closed[i], lKMinus1[i], r);
        CountedOnly(closed[i], lKMinus1[i], k - 1, r);
        ClosureIsShown(closed[i], k - 1, r);
      }
      forall x: Vertical | IsUseful(r, x) && |x| == k - 1 ensures HasCandidate(closed, x) {
        assert HasCandidate(lKMinus1, x);
        var i :| 0 <= i < |lKMinus1| && lKMinus1[i].candidate == x;
        assert closed[i].candidate == x;
      }
    }
  }

  lemma CountedOnly(p: FunQuadruple, q: FunQuadruple, k: nat, r: Relation)
    requires p.candidate == q.candidate && p.count == q.count
    ensures IsCounted(p, k, r) <==> IsCounted(q, k, r)
  {
  }

  lemma DisplayedSoFar(closed: FunLevel, lKMinus1: FunLevel, lK: FunLevel, before: map<nat, set<Vertical>>,
                       fds: map<nat, set<Vertical>>, rPrime: Vertical, k: nat, r: Relation)
    requires Stands(lKMinus1, lK, before, rPrime, k, r)
    requires |r.rows| > 0 && k > 1 ==> FdsUpTo(fds, r, k - 1)
    requires k == 1 || |r.rows| == 0 ==> fds == before
    ensures |r.rows| > 0 ==> FdsUpTo(fds, r, k - 1)
    ensures |r.rows| == 0 ==> fds == map[]
  {
    hide HasQuasiclosure, HasKeyClosure, Extends, FdsUpTo, IsRPrime, IsLevelOf, HasUseful;
  }

  lemma StandsAgain(lKMinus1: FunLevel, lK: FunLevel, closed: FunLevel, quasiclosed: FunLevel, nextKMinus1: FunLevel,
                    nextK: FunLevel, before: map<nat, set<Vertical>>, fds: map<nat, set<Vertical>>, rPrime: Vertical,
                    k: nat, r: Relation)
    requires Stands(lKMinus1, lK, before, rPrime, k, r) && |closed| == |lKMinus1| && |quasiclosed| == |lK| && lK != []
    requires |r.rows| == 0 ==> closed == lKMinus1 && fds == map[]
    requires IsLevelOf(quasiclosed, k, r)
    requires forall i :: 0 <= i < |quasiclosed| ==> quasiclosed[i].candidate == lK[i].candidate
    requires forall i :: 0 <= i < |quasiclosed| ==> HasKeyClosure(quasiclosed[i], r)
    requires |r.rows| > 0 ==> forall i :: 0 <= i < |quasiclosed| ==> HasQuasiclosure(quasiclosed[i], r)
    requires PrunedTo(quasiclosed, closed, |quasiclosed|, nextKMinus1) && IsLevelOf(nextKMinus1, k, r)
    requires forall i :: 0 <= i < |nextKMinus1| ==> nextKMinus1[i] in quasiclosed
    requires |r.rows| > 0 && HasUseful(quasiclosed, k, r) ==> HasUseful(nextKMinus1, k, r)
    requires IsLevelOf(nextK, k + 1, r) && IsFresh(nextK) && Extends(nextK, nextKMinus1, rPrime, r)
    requires nextKMinus1 == [] ==> nextK == []
    requires |r.rows| > 0 ==> FdsUpTo(fds, r, k - 1)
    ensures Stands(nextKMinus1, nextK, fds, rPrime, k + 1, r)
  {
    hide HasQuasiclosure, HasKeyClosure, Extends, FdsUpTo, IsRPrime, IsLevelOf, PrunedTo, HasUseful;
    forall i | 0 <= i < |nextKMinus1|
      ensures HasKeyClosure(nextKMinus1[i], r) && (|r.rows| > 0 ==> HasQuasiclosure(nextKMinus1[i], r))
    {
      var j :| 0 <= j < |quasiclosed| && quasiclosed[j] == nextKMinus1[i];
    }
    if |r.rows| > 0 {
      SameUseful(quasiclosed, lK, k, r);
      ExtendsUseful(nextK, nextKMinus1, rPrime, k, r);
    } else {
      EmptyRelationPrunes(quasiclosed, closed, nextKMinus1, r);
    }
  }

  lemma SameUseful(level: FunLevel, before: FunLevel, k: nat, r: Relation)
    requires HasUseful(before, k, r) && |level| == |before|
    requires forall i :: 0 <= i < |level| ==> level[i].candidate == before[i].candidate
    ensures HasUseful(level, k, r)
  {
    hide IsUseful;
    forall x: Vertical | IsUseful(r, x) && |x| == k ensures HasCandidate(level, x) {
      assert HasCandidate(before, x);
      var i :| 0 <= i < |before| && before[i].candidate == x;
      assert level[i].candidate == x;
    }
  }

  lemma LevelSize(level: FunLevel, k: nat, r: Relation)
    requires IsLevelOf(level, k, r)
    ensures level != [] ==> k <= r.numColumns
  {
    if level != [] {
      assert IsCounted(level[0], k, r);
      SubsetSize(level[0].candidate, r.Columns());
    }
  }

  // In the last round a candidate that is no key has no column left to determine.
  lemma LastIsShown(lKMinus1: FunLevel, lK: FunLevel, fds: map<nat, set<Vertical>>, rPrime: Vertical, k: nat, r: Relation)
    requires Stands(lKMinus1, lK, fds, rPrime, k, r) && lK == []
    ensures forall i :: 0 <= i < |lKMinus1| ==> lKMinus1[i].closure <= r.Columns()
    ensures |r.rows| > 0 && k > 1 ==>
      && (forall i :: 0 <= i < |lKMinus1| ==> IsShown(lKMinus1[i], k - 1, r))
      && HasUseful(lKMinus1, k - 1, r) && FdsUpTo(fds, r, k - 2)
    ensures k == 1 || |r.rows| == 0 ==> forall i :: 0 <= i < |lKMinus1| ==> lKMinus1[i].closure <= lKMinus1[i].quasiclosure
  {
    hide HasQuasiclosure, FdsUpTo, IsRPrime, IsShown, IsCounted, IsUseful, HasUseful, HasKeyClosure;
    if |r.rows| > 0 && k > 1 {
      forall i | 0 <= i < |lKMinus1| ensures IsShown(lKMinus1[i], k - 1, r) && lKMinus1[i].closure <= r.Columns() {
        assert IsCounted(lKMinus1[i], k - 1, r) && HasQuasiclosure(lKMinus1[i], r) && HasKeyClosure(lKMinus1[i], r);
        LastQuadruple(lKMinus1, i, rPrime, k - 1, r);
      }
    }
  }

  lemma LastQuadruple(level: FunLevel, i: nat, rPrime: Vertical, k: nat, r: Relation)
    requires i < |level| && IsCounted(level[i], k, r) && HasQuasiclosure(level[i], r) && HasKeyClosure(level[i], r)
    requires Extends([], level, rPrime, r) && IsRPrime(rPrime, r) && |r.rows| > 0 && k > 0
    ensures IsShown(level[i], k, r) && level[i].closure <= r.Columns()
  {
    hide ClassCount, IsKey;
    var q := level[i];
    if q.count == |r.rows| {
      KeyHasClosure(q, k, r);
      ClosureIsShown(q, k, r);
    } else {
      KeyCount(q, k, r);
      EmptyLevel(k, r);
      forall a | a in rPrime ensures a in q.candidate {
        assert a in q.candidate || HasCandidate([], q.candidate + {a});
      }
      forall a: nat ensures !MinimalFd(r, q.candidate, a) {
        if a in r.Columns() - q.candidate {
          CardinalityDecidesKey(r, {a});
          NonKeyDeterminesNoKey(r, q.candidate, a);
        }
      }
    }
  }

  // ----- the end of the run -----

  lemma {:induction false} UsefulOfSize(r: Relation, x: Vertical, k: nat) returns (y: Vertical)
    requires IsUseful(r, x) && k <= |x|
    ensures IsUseful(r, y) && |y| == k
    decreases |x|
  {
    if |x| == k {
      y := x;
    } else {
      assert x != {};
      var b :| b in x;
      UsefulSubset(r, x, b);
      y := UsefulOfSize(r, x - {b}, k);
    }
  }

  ghost function LhsFds(lhs: set<Vertical>, a: nat): set<Fd> {
    set x | x in lhs :: Fd(x, a)
  }

  ghost function FdsOf(fds: map<nat, set<Vertical>>, keys: set<nat>): set<Fd> {
    set a, x | a in keys && a in fds && x in fds[a] :: Fd(x, a)
  }

  lemma RegisteredNothing(fds: map<nat, set<Vertical>>)
    ensures Appended([], [], FdsOf(fds, fds.Keys - fds.Keys))
  {
    assert FdsOf(fds, fds.Keys - fds.Keys) == {};
  }

  lemma NoLhsYet(fds: map<nat, set<Vertical>>, done: set<nat>, a: nat)
    requires a in fds
    ensures FdsOf(fds, done) + LhsFds(fds[a] - fds[a], a) == FdsOf(fds, done)
  {
  }

  lemma NextLhs(fds: map<nat, set<Vertical>>, done: set<nat>, a: nat, rest: set<Vertical>, x: Vertical)
    requires a in fds && a !in done && rest <= fds[a] && x in rest
    ensures Fd(x, a) !in FdsOf(fds, done) + LhsFds(fds[a] - rest, a)
    ensures FdsOf(fds, done) + LhsFds(fds[a] - (rest - {x}), a) == FdsOf(fds, done) + LhsFds(fds[a] - rest, a) + {Fd(x, a)}
  {
  }

  lemma LhsDone(fds: map<nat, set<Vertical>>, done: set<nat>, a: nat)
    requires a in fds
    ensures FdsOf(fds, done) + LhsFds(fds[a] - {}, a) == FdsOf(fds, done + {a})
  {
  }

  lemma RunEnds(lKMinus1: FunLevel, lK: FunLevel, before: map<nat, set<Vertical>>, fds: map<nat, set<Vertical>>,
                rPrime: Vertical, k: nat, r: Relation, list: seq<Fd>)
    requires Stands(lKMinus1, lK, before, rPrime, k, r) && lK == [] && Appended(list, [], FdsOf(fds, fds.Keys))
    requires |r.rows| > 0 && k > 1 ==> FdsUpTo(fds, r, k - 1)
    requires k == 1 || |r.rows| == 0 ==> fds == before
    ensures |r.rows| > 0 ==> ListsMinimalFds(list, r)
    ensures |r.rows| == 0 ==> list == []
    ensures ListsMinimalFds(list, r) <==> |r.rows| > 0 || r.numColumns == 0
  {
    hide HasQuasiclosure, HasKeyClosure, Extends, IsRPrime, IsLevelOf, MinimalFd, FdsUpTo, HasUseful;
    if |r.rows| > 0 {
      AllListed(fds, k, r, list);
    } else {
      assert FdsOf(fds, fds.Keys) == {};
      NothingAppended(list, []);
      NoRows(r);
    }
  }

  lemma AllListed(fds: map<nat, set<Vertical>>, k: nat, r: Relation, list: seq<Fd>)
    requires k >= 1 && FdsUpTo(fds, r, k - 1) && HasUseful([], k, r) && Appended(list, [], FdsOf(fds, fds.Keys))
    ensures ListsMinimalFds(list, r)
  {
    hide MinimalFd, IsUseful;
    assert list == list[0..];
    NoUseful(k, r);
    forall x: Vertical, a: nat ensures Fd(x, a) in list <==> MinimalFd(r, x, a) {
      assert Fd(x, a) in list <==> Listed(fds, x, a);
      if MinimalFd(r, x, a) && |x| >= k {
        MinimalLhsIsUseful(r, x, a);
        var y := UsefulOfSize(r, x, k);
      }
    }
  }

  lemma NoUseful(k: nat, r: Relation)
    requires HasUseful([], k, r)
    ensures forall y: Vertical :: IsUseful(r, y) ==> |y| != k
  {
    hide IsUseful;
    EmptyLevel(k, r);
  }

  lemma NoRows(r: Relation)
    requires |r.rows| == 0
    ensures ListsMinimalFds([], r) <==> r.numColumns == 0
  {
    if r.numColumns > 0 {
      assert MinimalFd(r, {}, 0);
    }
  }
}
