// What the steps of TANE do to a level and to the list of dependencies, by value.
module TaneLevels {
  import opened Relations
  import opened FdLists
  import opened Bits
  import opened Partitions
  import opened Options
  import opened PositionListIndexes
  import opened TaneTheory
  import opened Lattice
  import opened LatticeLevel

  // ----- errors; the division by zero tuple pairs gives NaN, which passes no comparison -----

  datatype Error = NaN | Value(v: real) {
    predicate AtMostZero() {
      Value? && v <= 0.0
    }
  }

  function Divide(numerator: int, denominator: nat): Error {
    if denominator == 0 then NaN else Value(numerator as real / denominator as real)
  }

  function CalculateZeroAryFdError(rhsNep: nat, tuplePairs: nat): Error {
    match Divide(rhsNep, tuplePairs)
    case NaN => NaN
    case Value(v) => Value(1.0 - v)
  }

  function CalculateFdError(lhsNep: nat, jointNep: nat, tuplePairs: nat): Error {
    Divide(lhsNep - jointNep, tuplePairs)
  }

  function CalculateUccError(nep: nat, tuplePairs: nat): Error {
    Divide(nep, tuplePairs)
  }

  lemma QuotientSign(numerator: int, denominator: nat)
    requires denominator > 0
    ensures numerator as real / denominator as real <= 0.0 <==> numerator <= 0
    ensures numerator as real / denominator as real >= 1.0 <==> numerator >= denominator
  {
    var q := numerator as real / denominator as real;
    assert q * denominator as real == numerator as real;
  }

  // With at least two rows the errors are zero exactly when the dependency or the key holds.
  lemma ErrorsDecide(r: Relation, x: Vertical, a: nat)
    requires x <= r.Columns() && a in r.Columns()
    ensures CalculateZeroAryFdError(Nep(r, {a}), Pairs(|r.rows|)).AtMostZero() <==> |r.rows| >= 2 && IsConstant(r, a)
    ensures CalculateFdError(Nep(r, x), Nep(r, x + {a}), Pairs(|r.rows|)).AtMostZero() <==> |r.rows| >= 2 && Holds(r, x, a)
    ensures CalculateUccError(Nep(r, x), Pairs(|r.rows|)).AtMostZero() <==> |r.rows| >= 2 && IsKey(r, x)
  {
    var pairs := Pairs(|r.rows|);
    assert {} + {a} == {a};
    NumTuplePairs(r);
    NepDecidesFd(r, {}, a);
    NepDecidesFd(r, x, a);
    NepDecidesKey(r, x);
    PairsPositive(|r.rows|);
    if pairs > 0 {
      QuotientSign(Nep(r, {a}), pairs);
      QuotientSign(Nep(r, x) - Nep(r, x + {a}), pairs);
      QuotientSign(Nep(r, x), pairs);
    }
  }

  lemma PairsPositive(n: nat)
    ensures Pairs(n) > 0 <==> n >= 2
  {
    if n >= 2 {
      assert n * (n - 1) >= 2 by {
        assert n * (n - 1) >= n * 1;
      }
    }
  }

  // ----- what a run registers -----

  ghost predicate Registered(fds: seq<Fd>, r: Relation, keyBound: int, testBound: int) {
    && NoDuplicates(fds)
    && forall x: Vertical, a: nat :: Fd(x, a) in fds <==> InScope(r, x, a, keyBound, testBound)
  }

  // What the vertex x finds in its tests; nothing without two rows.
  ghost function Found(r: Relation, x: Vertical, candidates: Vertical): Vertical {
    if |r.rows| < 2 then {} else FoundRhs(r, x, candidates)
  }

  ghost function FoundFds(r: Relation, x: Vertical, found: Vertical): set<Fd> {
    set a | a in found :: Fd(x - {a}, a)
  }

  // The candidates of x after the parents without the columns in looked have been tested.
  ghost function CandidatesAfter(x: Vertical, candidates: Vertical, found: Vertical): Vertical {
    if found == {} then candidates else candidates * x - found
  }

  // The first column of xa that lhs does not have.
  function MissingColumn(xa: Vertical, lhs: Vertical, position: nat, n: nat): (a: nat)
    requires position <= n
    decreases n - position
  {
    var c := FindFrom(xa, position, n);
    if c >= n then n else if c in lhs then MissingColumn(xa, lhs, c + 1, n) else c
  }

  lemma MissingColumnIs(xa: Vertical, b: nat, position: nat, n: nat)
    requires position <= b < n && b in xa
    ensures MissingColumn(xa, xa - {b}, position, n) == b
    decreases n - position
  {
    var c := FindFrom(xa, position, n);
    if c != b {
      MissingColumnIs(xa, b, c + 1, n);
    }
  }

  // ----- the state of a level -----

  // Every vertex that is not invalid has the index of its columns.
  ghost predicate HasIndexes(level: Level, r: Relation)
    reads level.Values
  {
    forall x :: x in level && !level[x].isInvalid ==> HasIndex(level[x], r, x)
  }

  ghost predicate HasIndex(v: LatticeVertex, r: Relation, x: Vertical)
    reads v
  {
    IsIndexOf(v.positionListIndex, r, x)
  }

  ghost predicate IsIndexOf(index: Option<PositionListIndex>, r: Relation, x: Vertical) {
    index.Some? && IsPliOf(index.value, r, x)
  }

  ghost predicate ParentsIndexed(previous: Level, r: Relation, x: Vertical)
    reads previous.Values
  {
    forall b :: b in x && x - {b} in previous ==> HasIndex(previous[x - {b}], r, x - {b})
  }

  // A vertex that is not invalid is a key candidate, and the other way around.
  ghost predicate FlagsMatch(level: Level)
    reads level.Values
  {
    forall x :: x in level ==> level[x].isKeyCandidate == !level[x].isInvalid
  }

  ghost predicate ParentsKnown(level: Level, previous: Level)
    reads level.Values
  {
    forall x :: x in level ==> ParentsAre(level[x].parents, x, previous, x)
  }

  // What the tests of a level read and change of a vertex.
  datatype Snapshot = Snapshot(view: VertexView, parents: seq<LatticeVertex>, index: Option<PositionListIndex>)

  ghost function Snapshots(level: Level): map<Vertical, Snapshot>
    reads level.Values
  {
    map x | x in level :: SnapshotOf(level[x])
  }

  ghost function SnapshotOf(v: LatticeVertex): Snapshot
    reads v
  {
    Snapshot(v.View(), v.parents, v.positionListIndex)
  }

  // keys are still to be tested and done have been tested.
  ghost predicate TestProgress(now: map<Vertical, Snapshot>, previous: Level, view: map<Vertical, VertexView>,
                               keys: set<Vertical>, done: set<Vertical>, r: Relation) {
    && keys !! done && keys + done == now.Keys == view.Keys
    && (forall x :: x in keys ==> now[x].view == view[x])
    && (forall x :: x in keys ==> ParentsAre(now[x].parents, x, previous, x))
    && (forall x :: x in done ==> now[x].view == TestedVertex(view[x], x, r))
    && (forall x :: x in done && !now[x].view.isInvalid ==> IsIndexOf(now[x].index, r, x))
  }

  lemma TestProgressStart(level: Level, previous: Level, r: Relation)
    requires ParentsKnown(level, previous)
    ensures TestProgress(Snapshots(level), previous, LevelView(level), level.Keys, {}, r)
  {
  }

  lemma TestProgressMeans(level: Level, previous: Level, view: map<Vertical, VertexView>,
                          keys: set<Vertical>, done: set<Vertical>, r: Relation, x: Vertical)
    requires TestProgress(Snapshots(level), previous, view, keys, done, r) && x in keys
    ensures x in level && x in view && x !in done && level[x].View() == view[x]
    ensures ParentsAre(level[x].parents, x, previous, x)
  {
    assert x in Snapshots(level);
  }

  lemma TestProgressStep(now: map<Vertical, Snapshot>, s: Snapshot, previous: Level, view: map<Vertical, VertexView>,
                         keys: set<Vertical>, done: set<Vertical>, r: Relation, x: Vertical)
    requires TestProgress(now, previous, view, keys, done, r) && x in keys && x in view
    requires s.view == TestedVertex(view[x], x, r)
    requires !s.view.isInvalid ==> IsIndexOf(s.index, r, x)
    ensures TestProgress(now[x := s], previous, view, keys - {x}, done + {x}, r)
  {
  }

  lemma TestProgressEnd(level: Level, previous: Level, view: map<Vertical, VertexView>, done: set<Vertical>, r: Relation)
    requires TestProgress(Snapshots(level), previous, view, {}, done, r)
    ensures HasIndexes(level, r) && LevelView(level) == TestedView(view, r) && done == level.Keys
  {
    assert level.Keys == Snapshots(level).Keys;
    forall x | x in level ensures level[x].View() == TestedVertex(view[x], x, r) && (!level[x].isInvalid ==> HasIndex(level[x], r, x)) {
      assert Snapshots(level)[x].view == level[x].View();
    }
    TestedViewOf(level, view, r);
  }

  // ----- the effect of testing a level -----

  ghost function TestedVertex(v: VertexView, x: Vertical, r: Relation): VertexView {
    if v.isInvalid then v
    else v.(rhsCandidates := CandidatesAfter(x, v.rhsCandidates, Found(r, x, v.rhsCandidates)))
  }

  ghost function TestedView(view: map<Vertical, VertexView>, r: Relation): map<Vertical, VertexView> {
    map x | x in view :: TestedVertex(view[x], x, r)
  }

  // What the vertices with the given column sets find.
  ghost function LevelFound(view: map<Vertical, VertexView>, keys: set<Vertical>, r: Relation): set<Fd> {
    set x, a | x in keys && x in view && !view[x].isInvalid && a in Found(r, x, view[x].rhsCandidates) :: Fd(x - {a}, a)
  }

  lemma TestedViewOf(level: Level, view: map<Vertical, VertexView>, r: Relation)
    requires view.Keys == level.Keys
    requires forall x :: x in level ==> level[x].View() == TestedVertex(view[x], x, r)
    ensures LevelView(level) == TestedView(view, r)
  {
  }

  lemma OthersDiffer(level: Level, arity: nat, r: Relation, x: Vertical)
    requires IsLatticeLevel(level, arity, r) && x in level
    ensures forall y :: y in level && y != x ==> level[x] != level[y]
    ensures level[x].vertical == x && |x| == arity && x <= r.Columns()
  {
  }

  lemma NothingFound(view: map<Vertical, VertexView>, r: Relation, fds: seq<Fd>)
    ensures Appended(fds, fds, LevelFound(view, {}, r))
  {
    assert LevelFound(view, {}, r) == {};
  }

  lemma MoreFound(view: map<Vertical, VertexView>, keys: set<Vertical>, x: Vertical, r: Relation,
                  fds: seq<Fd>, middle: seq<Fd>, before: seq<Fd>)
    requires x in view && x !in keys && Appended(middle, before, LevelFound(view, keys, r))
    requires view[x].isInvalid ==> fds == middle
    requires !view[x].isInvalid ==> Appended(fds, middle, FoundFds(r, x, Found(r, x, view[x].rhsCandidates)))
    ensures Appended(fds, before, LevelFound(view, keys + {x}, r))
  {
    hide Appended;
    var first, second := LevelFound(view, keys, r), FoundFds(r, x, Found(r, x, view[x].rhsCandidates));
    if view[x].isInvalid {
      assert LevelFound(view, keys + {x}, r) == first;
    } else {
      assert LevelFound(view, keys + {x}, r) == first + second;
      forall d | d in first ensures d.lhs + {d.rhs} != x {
        var y, a :| y in keys && y in view && !view[y].isInvalid && a in Found(r, y, view[y].rhsCandidates) && d == Fd(y - {a}, a);
        assert d.lhs + {d.rhs} == y;
      }
      forall d | d in second ensures d.lhs + {d.rhs} == x {
      }
      AppendMore(fds, middle, before, first, second);
    }
  }

  // done are the columns that the first i parents lack.
  ghost predicate DoneUpTo(parents: seq<LatticeVertex>, i: nat, done: set<nat>, level: Level, x: Vertical) {
    && i <= |parents|
    && (forall b :: b in done ==> b in x && x - {b} in level && level[x - {b}] in parents[..i])
    && (forall p :: p in parents[..i] ==> exists b :: b in done && x - {b} in level && p == level[x - {b}])
  }

  lemma DoneStart(parents: seq<LatticeVertex>, level: Level, x: Vertical)
    ensures DoneUpTo(parents, 0, {}, level, x)
  {
  }

  // The next parent lacks a column that is not done yet.
  lemma DoneStep(parents: seq<LatticeVertex>, i: nat, done: set<nat>, level: Level, x: Vertical) returns (b: nat)
    requires ParentsAre(parents, x, level, x) && IsKeyed(level)
    requires i < |parents| && DoneUpTo(parents, i, done, level, x)
    ensures b in x && b !in done && x - {b} in level && parents[i] == level[x - {b}] && parents[i].vertical == x - {b}
    ensures DoneUpTo(parents, i + 1, done + {b}, level, x)
  {
    assert parents[i] in parents;
    b :| b in x && x - {b} in level && parents[i] == level[x - {b}];
    assert parents[..i + 1] == parents[..i] + [parents[i]];
    assert parents[i] !in parents[..i];
  }

  lemma DoneEnd(parents: seq<LatticeVertex>, done: set<nat>, level: Level, x: Vertical)
    requires ParentsAre(parents, x, level, x) && IsKeyed(level) && DoneUpTo(parents, |parents|, done, level, x)
    ensures done == x
  {
    assert parents[..|parents|] == parents;
    forall b | b in x ensures b in done {
      var c :| c in done && x - {c} in level && level[x - {b}] == level[x - {c}];
      assert x - {b} == x - {c};
      assert b !in x - {c};
    }
  }

  // One test: what is found grows by the column when the dependency holds.
  lemma CandidatesStep(x: Vertical, candidates: Vertical, found: Vertical, done: Vertical, b: nat)
    requires found <= candidates * x && b in x && b !in done
    ensures var before := CandidatesAfter(x, candidates, found * done);
      var after := CandidatesAfter(x, candidates, found * (done + {b}));
      if b in found then after == (before - {b}) * (x - {b}) else after == before
  {
    if b in found {
      assert found * (done + {b}) == found * done + {b};
    } else {
      assert found * (done + {b}) == found * done;
    }
  }

  lemma FoundFdsStep(r: Relation, x: Vertical, found: Vertical, done: Vertical, b: nat)
    requires b in x && b !in done
    ensures var before, after := FoundFds(r, x, found * done), FoundFds(r, x, found * (done + {b}));
      && Fd(x - {b}, b) !in before
      && (if b in found then after == before + {Fd(x - {b}, b)} else after == before)
  {
    if b in found {
      assert found * (done + {b}) == found * done + {b};
    } else {
      assert found * (done + {b}) == found * done;
    }
  }

  lemma TestStart(r: Relation, x: Vertical, candidates: Vertical, fds: seq<Fd>)
    ensures var found := Found(r, x, candidates);
      && candidates == CandidatesAfter(x, candidates, found * {})
      && Appended(fds, fds, FoundFds(r, x, found * {}))
  {
    assert Found(r, x, candidates) * {} == {};
  }

  lemma TestMeans(r: Relation, x: Vertical, candidates: Vertical, b: nat)
    requires b in x
    ensures Found(r, x, candidates) <= candidates * x
    ensures b in Found(r, x, candidates) <==> |r.rows| >= 2 && b in candidates && Holds(r, x - {b}, b)
  {
  }

  lemma FoundInside(r: Relation, x: Vertical, candidates: Vertical)
    ensures Found(r, x, candidates) * x == Found(r, x, candidates)
  {
  }

  lemma PliNeps(lhsPli: PositionListIndex, jointPli: PositionListIndex, r: Relation, x: Vertical, b: nat)
    requires x <= r.Columns() && b in x && IsPliOf(lhsPli, r, x - {b}) && IsPliOf(jointPli, r, x)
    ensures CalculateFdError(lhsPli.nep, jointPli.nep, Pairs(|r.rows|)).AtMostZero() <==>
      |r.rows| >= 2 && Holds(r, x - {b}, b)
  {
    hide IsPliOf, Holds;
    PliCounts(lhsPli, r, x - {b});
    PliCounts(jointPli, r, x);
    assert x - {b} + {b} == x;
    ErrorsDecide(r, x - {b}, b);
  }

  lemma FirstParents(parents: seq<LatticeVertex>, level: Level, x: Vertical) returns (b0: nat, b1: nat)
    requires ParentsAre(parents, x, level, x) && |x| >= 2 && IsKeyed(level)
    ensures |parents| >= 2 && b0 in x && b1 in x && b0 != b1
    ensures x - {b0} in level && x - {b1} in level && parents[0] == level[x - {b0}] && parents[1] == level[x - {b1}]
  {
    TwoElements(x);
    var c, d :| c in x && d in x && c != d;
    assert d in x - {c} && d !in x - {d};
    assert level[x - {c}] != level[x - {d}];
    assert level[x - {c}] in parents && level[x - {d}] in parents;
    assert parents[0] in parents && parents[1] in parents;
    b0 :| b0 in x && x - {b0} in level && parents[0] == level[x - {b0}];
    b1 :| b1 in x && x - {b1} in level && parents[1] == level[x - {b1}];
  }

  lemma TwoElements(x: Vertical)
    requires |x| >= 2
    ensures exists c, d :: c in x && d in x && c != d
  {
    assert x != {};
    var c :| c in x;
    assert |x - {c}| >= 1;
    assert x - {c} != {};
    var d :| d in x - {c};
    assert c in x && d in x && c != d;
  }

  // ----- key pruning -----

  ghost function PrunedVertex(v: VertexView, x: Vertical, r: Relation): VertexView {
    if |r.rows| >= 2 && v.isKeyCandidate && IsKey(r, x) then Vertex(v.rhsCandidates * x, false, true) else v
  }

  ghost function PrunedView(view: map<Vertical, VertexView>, r: Relation): map<Vertical, VertexView> {
    map x | x in view :: PrunedVertex(view[x], x, r)
  }

  // A level after its tests.
  ghost predicate LevelTested(view: map<Vertical, VertexView>, arity: nat, r: Relation) {
    && IsLevel(view, arity, r)
    && (forall x :: x in view ==> VertexTested(view[x], x, r))
    && Complete(view, arity, r)
  }

  // No wanted column set is missing.
  ghost predicate Complete(view: map<Vertical, VertexView>, arity: nat, r: Relation) {
    forall x: Vertical, a :: x <= r.Columns() && |x| == arity && WantedBelow(r, x, a) ==> x in view
  }

  // What key pruning of x may rely on while its level is being pruned.
  ghost predicate Prunable(view: map<Vertical, VertexView>, x: Vertical, arity: nat, r: Relation) {
    && (forall y :: y in view ==> VertexSettled(view[y], y, r))
    && Complete(view, arity, r)
    && x in view && x <= r.Columns() && |x| == arity >= 1 && IsKey(r, x) && Live(r, x)
    && (forall a :: a in view[x].rhsCandidates <==> InPlus(r, x, a))
  }

  lemma PruningDecides(view: map<Vertical, VertexView>, x: Vertical, arity: nat, r: Relation, a: nat)
    requires Prunable(view, x, arity, r)
    ensures a in view[x].rhsCandidates && a !in x && SiblingsAllow(view, x, a) <==> MinimalFd(r, x, a)
  {
    if a in r.Columns() - x {
      KeyPruningFindsMinimal(view, x, r, a, arity);
    }
  }

  // The minimal dependencies of x with a right-hand side below bound.
  ghost function KeyFds(r: Relation, x: Vertical, bound: nat): set<Fd> {
    set a | a in r.Columns() && a < bound && MinimalFd(r, x, a) :: Fd(x, a)
  }

  lemma KeyFdsStart(r: Relation, x: Vertical, bound: nat, fds: seq<Fd>)
    requires forall a: nat :: a < bound ==> !MinimalFd(r, x, a)
    ensures Appended(fds, fds, KeyFds(r, x, bound))
  {
    assert KeyFds(r, x, bound) == {};
  }

  // One right-hand side, and the non-candidates up to the next one.
  lemma KeyFdsStep(r: Relation, x: Vertical, a: nat, next: nat)
    requires a < next && a in r.Columns()
    requires forall b: nat :: a < b < next ==> !MinimalFd(r, x, b)
    ensures Fd(x, a) !in KeyFds(r, x, a)
    ensures KeyFds(r, x, next) == if MinimalFd(r, x, a) then KeyFds(r, x, a) + {Fd(x, a)} else KeyFds(r, x, a)
  {
  }

  ghost function LevelKeyFds(r: Relation, keys: set<Vertical>): set<Fd> {
    set x, a | x in keys && a in r.Columns() && |r.rows| >= 2 && IsKey(r, x) && Live(r, x) && MinimalFd(r, x, a) :: Fd(x, a)
  }

  // The vertices in done have been pruned, the others are as they were.
  ghost predicate PruneProgress(view: map<Vertical, VertexView>, before: map<Vertical, VertexView>,
                                keys: set<Vertical>, done: set<Vertical>, r: Relation) {
    && keys !! done && keys + done == view.Keys == before.Keys
    && (forall x :: x in keys ==> view[x] == before[x])
    && (forall x :: x in done ==> view[x] == PrunedVertex(before[x], x, r))
  }

  lemma PruneProgressStep(view: map<Vertical, VertexView>, before: map<Vertical, VertexView>,
                          keys: set<Vertical>, done: set<Vertical>, r: Relation, x: Vertical)
    requires PruneProgress(view, before, keys, done, r) && x in keys
    ensures x !in done && PruneProgress(view[x := PrunedVertex(view[x], x, r)], before, keys - {x}, done + {x}, r)
  {
  }

  lemma PruneProgressEnd(view: map<Vertical, VertexView>, before: map<Vertical, VertexView>, done: set<Vertical>, r: Relation)
    requires PruneProgress(view, before, {}, done, r)
    ensures view == PrunedView(before, r) && done == before.Keys
  {
  }

  // Halfway through a level every vertex is settled, so a key that is met can be pruned.
  lemma ProgressIsPrunable(view: map<Vertical, VertexView>, before: map<Vertical, VertexView>,
                           keys: set<Vertical>, done: set<Vertical>, r: Relation, arity: nat, x: Vertical)
    requires PruneProgress(view, before, keys, done, r) && x in keys
    requires |r.rows| >= 2 && LevelTested(before, arity, r) && arity >= 1
    ensures view[x].isKeyCandidate <==> Live(r, x)
    ensures IsKey(r, x) && Live(r, x) ==> Prunable(view, x, arity, r)
  {
    hide VertexTested, VertexDone, VertexSettled, WantedBelow, IsKey, Live, InPlus, Wanted;
    forall y | y in view ensures VertexSettled(view[y], y, r) {
      PrunedVertexIsDone(before[y], y, r);
      TestedOrDoneIsSettled(view[y], y, r);
    }
    TestedCandidates(before[x], x, r);
  }

  lemma TestedCandidates(v: VertexView, x: Vertical, r: Relation)
    requires VertexTested(v, x, r)
    ensures v.isKeyCandidate <==> Live(r, x)
    ensures Live(r, x) ==> forall a :: a in v.rhsCandidates <==> InPlus(r, x, a)
  {
  }

  lemma PrunedVertexIsDone(v: VertexView, x: Vertical, r: Relation)
    requires VertexTested(v, x, r) && |r.rows| >= 2
    ensures VertexDone(PrunedVertex(v, x, r), x, r)
  {
    PrunedIsDone(v, x, r);
  }

  lemma PrunedLevelIsDone(view: map<Vertical, VertexView>, arity: nat, r: Relation)
    requires |r.rows| >= 2 && LevelTested(view, arity, r)
    ensures LevelDone(PrunedView(view, r), arity, r)
  {
    hide VertexTested, VertexDone, WantedBelow;
    forall x | x in view ensures VertexDone(PrunedVertex(view[x], x, r), x, r) {
      PrunedVertexIsDone(view[x], x, r);
    }
  }

  lemma MoreKeys(r: Relation, keys: set<Vertical>, x: Vertical, fds: seq<Fd>, middle: seq<Fd>, before: seq<Fd>)
    requires x !in keys && Appended(middle, before, LevelKeyFds(r, keys))
    requires Appended(fds, middle, if |r.rows| >= 2 && IsKey(r, x) && Live(r, x) then KeyFds(r, x, r.numColumns) else {})
    ensures Appended(fds, before, LevelKeyFds(r, keys + {x}))
  {
    hide Appended, MinimalFd, IsKey, Live;
    var second := if |r.rows| >= 2 && IsKey(r, x) && Live(r, x) then KeyFds(r, x, r.numColumns) else {};
    assert LevelKeyFds(r, keys + {x}) == LevelKeyFds(r, keys) + second;
    AppendMore(fds, middle, before, LevelKeyFds(r, keys), second);
  }

  // ----- what a whole level adds -----

  lemma RegisteredMore(fds: seq<Fd>, before: seq<Fd>, added: set<Fd>, r: Relation,
                       keyBound: int, testBound: int, newKeyBound: int, newTestBound: int)
    requires Registered(before, r, keyBound, testBound) && Appended(fds, before, added)
    requires keyBound <= newKeyBound && testBound <= newTestBound
    requires forall x: Vertical, a: nat :: Fd(x, a) in added <==>
      InScope(r, x, a, newKeyBound, newTestBound) && !InScope(r, x, a, keyBound, testBound)
    ensures Registered(fds, r, newKeyBound, newTestBound)
  {
    hide MinimalFd, IsKey;
    var rest := fds[|before|..];
    assert fds == before + rest;
    forall i, j | 0 <= i < |before| && 0 <= j < |rest| ensures before[i] != rest[j] {
      assert before[i] in before && rest[j] in rest;
      assert before[i] == Fd(before[i].lhs, before[i].rhs);
    }
    forall x: Vertical, a: nat ensures Fd(x, a) in fds <==> InScope(r, x, a, newKeyBound, newTestBound) {
      assert Fd(x, a) in fds <==> Fd(x, a) in before || Fd(x, a) in rest;
    }
  }

  // The tests of a level find exactly the minimal dependencies with non-key left-hand sides below its arity.
  lemma TestsFindMinimal(view: map<Vertical, VertexView>, level: map<Vertical, VertexView>, arity: nat, r: Relation,
                         l: Vertical, a: nat)
    requires |r.rows| >= 2 && arity >= 2 && LevelDone(level, arity - 1, r) && IsNextLevel(view, level, arity - 1, r)
    ensures Fd(l, a) in LevelFound(view, view.Keys, r) <==> MinimalFd(r, l, a) && !IsKey(r, l) && |l| == arity - 1
  {
    hide MinimalFd, LevelDone, IsNextLevel, WantedBelow, IsKey, Found;
    var x := l + {a};
    if Fd(l, a) in LevelFound(view, view.Keys, r) {
      var y, b :| y in view && !view[y].isInvalid && b in Found(r, y, view[y].rhsCandidates) && Fd(l, a) == Fd(y - {b}, b);
      FoundIsMinimal(view, level, arity, r, y, b);
    }
    if MinimalFd(r, l, a) && !IsKey(r, l) && |l| == arity - 1 {
      MinimalIsFound(view, level, arity, r, l, a);
      assert x - {a} == l && Fd(l, a) == Fd(x - {a}, a);
    }
  }

  lemma FoundIsMinimal(view: map<Vertical, VertexView>, level: map<Vertical, VertexView>, arity: nat, r: Relation,
                       x: Vertical, a: nat)
    requires |r.rows| >= 2 && arity >= 2 && LevelDone(level, arity - 1, r) && IsNextLevel(view, level, arity - 1, r)
    requires x in view && !view[x].isInvalid && a in Found(r, x, view[x].rhsCandidates)
    ensures MinimalFd(r, x - {a}, a) && !IsKey(r, x - {a}) && |x - {a}| == arity - 1
  {
    hide MinimalFd, LevelDone, IsNextLevel, VertexGenerated, IsKey;
    NextVertexIsGenerated(view, level, arity, r, x);
    TestFindsMinimal(view[x], x, r, a);
    SizeOfRest(x, a);
  }

  lemma MinimalIsFound(view: map<Vertical, VertexView>, level: map<Vertical, VertexView>, arity: nat, r: Relation,
                       l: Vertical, a: nat)
    requires |r.rows| >= 2 && arity >= 2 && LevelDone(level, arity - 1, r) && IsNextLevel(view, level, arity - 1, r)
    requires MinimalFd(r, l, a) && !IsKey(r, l) && |l| == arity - 1
    ensures var x := l + {a}; a !in l && x in view && !view[x].isInvalid && a in Found(r, x, view[x].rhsCandidates)
  {
    hide MinimalFd, LevelDone, IsNextLevel, VertexGenerated, WantedBelow, IsKey;
    var x := l + {a};
    assert l != {};
    MinimalFdIsWanted(r, l, a);
    MinimalFdHolds(r, l, a);
    NextLevelComplete(view, level, arity - 1, r, x, a);
    NextVertexIsGenerated(view, level, arity, r, x);
    assert x - {a} == l;
    TestFindsMinimal(view[x], x, r, a);
  }

  lemma NextVertexIsGenerated(view: map<Vertical, VertexView>, level: map<Vertical, VertexView>, arity: nat, r: Relation,
                              x: Vertical)
    requires arity >= 2 && LevelDone(level, arity - 1, r) && IsNextLevel(view, level, arity - 1, r) && x in view
    ensures VertexGenerated(view[x], x, r) && x <= r.Columns() && |x| == arity
    ensures view[x].isInvalid <==> !Live(r, x)
  {
    hide VertexDone;
    JoinIsGenerated(view[x], level, x, arity - 1, r);
  }

  lemma TestedLevel(view: map<Vertical, VertexView>, level: map<Vertical, VertexView>, arity: nat, r: Relation)
    requires |r.rows| >= 2 && arity >= 2 && LevelDone(level, arity - 1, r) && IsNextLevel(view, level, arity - 1, r)
    ensures LevelTested(TestedView(view, r), arity, r)
  {
    hide LevelDone, IsNextLevel, VertexGenerated, VertexTested, WantedBelow, Live;
    forall x | x in view ensures VertexTested(TestedVertex(view[x], x, r), x, r) && x <= r.Columns() && |x| == arity {
      NextVertexIsGenerated(view, level, arity, r, x);
      GeneratedIsTested(view[x], x, r);
    }
    forall x: Vertical, a | x <= r.Columns() && |x| == arity && WantedBelow(r, x, a) ensures x in view {
      NextLevelComplete(view, level, arity - 1, r, x, a);
    }
  }

  lemma TestsRegister(fds: seq<Fd>, before: seq<Fd>, view: map<Vertical, VertexView>, level: map<Vertical, VertexView>,
                      arity: nat, r: Relation)
    requires |r.rows| >= 2 && arity >= 2 && LevelDone(level, arity - 1, r) && IsNextLevel(view, level, arity - 1, r)
    requires Registered(before, r, arity - 1, arity - 1) && Appended(fds, before, LevelFound(view, view.Keys, r))
    ensures Registered(fds, r, arity - 1, arity)
  {
    hide MinimalFd, IsKey, LevelDone, IsNextLevel, Registered, LevelFound;
    forall l: Vertical, a: nat ensures Fd(l, a) in LevelFound(view, view.Keys, r) <==>
      InScope(r, l, a, arity - 1, arity) && !InScope(r, l, a, arity - 1, arity - 1)
    {
      TestsFindMinimal(view, level, arity, r, l, a);
    }
    RegisteredMore(fds, before, LevelFound(view, view.Keys, r), r, arity - 1, arity - 1, arity - 1, arity);
  }

  lemma KeysRegister(fds: seq<Fd>, before: seq<Fd>, view: map<Vertical, VertexView>, arity: nat, r: Relation)
    requires |r.rows| >= 2 && arity >= 1 && LevelTested(view, arity, r)
    requires Registered(before, r, arity - 1, arity) && Appended(fds, before, LevelKeyFds(r, view.Keys))
    ensures Registered(fds, r, arity, arity)
  {
    hide MinimalFd, IsKey, Registered, WantedBelow, Live, VertexTested;
    forall l: Vertical, a: nat ensures Fd(l, a) in LevelKeyFds(r, view.Keys) <==>
      InScope(r, l, a, arity, arity) && !InScope(r, l, a, arity - 1, arity)
    {
      if MinimalFd(r, l, a) && IsKey(r, l) && |l| == arity {
        assert l != {};
        var c := MinimalKeyIsWanted(r, l, a);
        MinimalFdHolds(r, l, a);
        assert l in view;
      }
      if Fd(l, a) in LevelKeyFds(r, view.Keys) {
        assert l in view && |l| == arity;
      }
    }
    RegisteredMore(fds, before, LevelKeyFds(r, view.Keys), r, arity - 1, arity, arity, arity);
  }

  // The search may stop at a level without vertices.
  lemma EmptyLevelEnds(fds: seq<Fd>, view: map<Vertical, VertexView>, level: map<Vertical, VertexView>,
                       arity: nat, maxLhs: nat, r: Relation)
    requires arity >= 2 && LevelDone(level, arity - 1, r) && IsNextLevel(view, level, arity - 1, r) && view == map[]
    requires Registered(fds, r, arity - 1, arity - 1) && arity - 1 <= maxLhs
    ensures ListsMinimalFdsUpTo(fds, r, maxLhs)
  {
    hide MinimalFd, IsKey, LevelDone, IsNextLevel, WantedBelow;
    forall x: Vertical, a | x <= r.Columns() && |x| == arity ensures !WantedBelow(r, x, a) {
      if WantedBelow(r, x, a) {
        NextLevelComplete(view, level, arity - 1, r, x, a);
      }
    }
    forall x: Vertical, a: nat | MinimalFd(r, x, a) ensures InScope(r, x, a, arity - 1, arity - 1) {
      MinimalFdHolds(r, x, a);
      if x != {} && IsKey(r, x) && |x| >= arity {
        var c := MinimalKeyIsWanted(r, x, a);
        NothingWantedAbove(r, arity, x, c);
      }
      if x != {} && !IsKey(r, x) && |x| >= arity - 1 {
        MinimalFdIsWanted(r, x, a);
        NothingWantedAbove(r, arity, x + {a}, a);
      }
    }
  }

  lemma LastLevelEnds(fds: seq<Fd>, maxLhs: nat, r: Relation)
    requires Registered(fds, r, maxLhs, maxLhs + 1)
    ensures ListsMinimalFdsUpTo(fds, r, maxLhs)
  {
    forall x: Vertical, a: nat ensures InScope(r, x, a, maxLhs, maxLhs + 1) <==> MinimalFd(r, x, a) && |x| <= maxLhs {
      assert x == {} ==> |x| == 0;
    }
  }

  // Without two rows all columns are constant, so an empty list is right only without columns.
  lemma FewRows(r: Relation, maxLhs: nat)
    requires |r.rows| < 2
    ensures ListsMinimalFdsUpTo([], r, maxLhs) <==> r.numColumns == 0
  {
    if r.numColumns > 0 {
      forall i: nat, j: nat | r.IsRow(i) && r.IsRow(j) ensures 0 in r.AgreeSet(i, j) {
        assert i == j && r.Same(i, j, 0);
      }
      assert Holds(r, {}, 0);
      assert MinimalFd(r, {}, 0);
    }
  }

  // An input that shows it: the only column of a single row is constant, which the empty result leaves out.
  lemma SingleRow(maxLhs: nat)
    ensures var r := Relation(1, [[0]], true); MinimalFd(r, {}, 0) && !ListsMinimalFdsUpTo([], r, maxLhs)
  {
    var r := Relation(1, [[0]], true);
    FewRows(r, maxLhs);
    assert 0 in r.AgreeSet(0, 0);
  }

  lemma PrunableBounds(view: map<Vertical, VertexView>, x: Vertical, arity: nat, r: Relation)
    requires Prunable(view, x, arity, r)
    ensures x <= r.Columns() && x in view && forall a :: a in view[x].rhsCandidates ==> a < r.numColumns
  {
  }

  // The columns between two successive candidates are no minimal right-hand sides.
  lemma NotMinimal(view: map<Vertical, VertexView>, x: Vertical, arity: nat, r: Relation, position: nat, next: nat, skip: bool)
    requires Prunable(view, x, arity, r)
    requires forall a :: position <= a < next && (skip ==> a != position) ==> a !in view[x].rhsCandidates
    ensures forall a: nat :: position <= a < next && (skip ==> a != position) ==> !MinimalFd(r, x, a)
  {
    forall a: nat | position <= a < next && (skip ==> a != position) ensures !MinimalFd(r, x, a) {
      PruningDecides(view, x, arity, r, a);
    }
  }

  lemma PliUccError(pli: PositionListIndex, r: Relation, x: Vertical)
    requires x <= r.Columns() && IsPliOf(pli, r, x)
    ensures CalculateUccError(pli.nep, Pairs(|r.rows|)).AtMostZero() <==> |r.rows| >= 2 && IsKey(r, x)
  {
    PliCounts(pli, r, x);
    NepDecidesKey(r, x);
    PairsPositive(|r.rows|);
    if Pairs(|r.rows|) > 0 {
      QuotientSign(pli.nep, Pairs(|r.rows|));
    }
  }

  lemma PruneStart(view: map<Vertical, VertexView>, r: Relation, fds: seq<Fd>)
    ensures PruneProgress(view, view, view.Keys, {}, r) && Appended(fds, fds, LevelKeyFds(r, {}))
  {
    assert LevelKeyFds(r, {}) == {};
  }

  // ----- the first level -----

  ghost function Singletons(n: nat): set<Vertical> {
    set c | c in UpTo(n) :: {c}
  }

  ghost function ZeroaryRhs(r: Relation): Vertical {
    set a | a in r.Columns() && |r.rows| >= 2 && IsConstant(r, a)
  }

  ghost function ConstantFds(r: Relation, bound: nat): set<Fd> {
    set a | a in ZeroaryRhs(r) && a < bound :: Fd({}, a)
  }

  // A vertex of one column after the search for constant columns.
  ghost function SetUpVertex(x: Vertical, r: Relation): VertexView {
    Vertex(if x <= ZeroaryRhs(r) then {} else r.Columns(), true, false)
  }

  // A vertex of one column after its key test.
  ghost function FirstVertex(x: Vertical, r: Relation, maxLhs: nat): VertexView {
    var candidates := SetUpVertex(x, r).rhsCandidates - ZeroaryRhs(r);
    if |r.rows| < 2 || !IsKey(r, x) then Vertex(candidates, true, false)
    else if maxLhs == 0 then Vertex(candidates, false, false)
    else Vertex(candidates * x, false, true)
  }

  lemma NoConstants(r: Relation, fds: seq<Fd>)
    ensures Singletons(0) == {} && Appended(fds, fds, ConstantFds(r, 0))
  {
    assert ConstantFds(r, 0) == {};
  }

  lemma NextSingleton(r: Relation, c: nat)
    requires c < r.numColumns
    ensures Singletons(c + 1) == Singletons(c) + {{c}} && {c} !in Singletons(c)
    ensures Fd({}, c) !in ConstantFds(r, c)
    ensures ConstantFds(r, c + 1) == if c in ZeroaryRhs(r) then ConstantFds(r, c) + {Fd({}, c)} else ConstantFds(r, c)
  {
    forall d | d in UpTo(c) ensures {d} != {c} {
      assert d in {d} && d !in {c};
    }
    forall x ensures x in Singletons(c + 1) <==> x in Singletons(c) + {{c}} {
      if x in Singletons(c) {
        var d :| d in UpTo(c) && x == {d};
        assert d in UpTo(c + 1);
      }
      assert c in UpTo(c + 1);
    }
  }

  lemma ZeroaryError(pli: PositionListIndex, r: Relation, c: nat)
    requires c in r.Columns() && IsPliOf(pli, r, {c})
    ensures CalculateZeroAryFdError(pli.nep, Pairs(|r.rows|)).AtMostZero() <==> c in ZeroaryRhs(r)
  {
    PliCounts(pli, r, {c});
    ErrorsDecide(r, {}, c);
  }

  // A key column determines every other column that is not constant, and minimally so.
  lemma SingletonKey(r: Relation, x: Vertical, a: nat)
    requires x in Singletons(r.numColumns) && |r.rows| >= 2 && IsKey(r, x)
    ensures Live(r, x)
    ensures a in SetUpVertex(x, r).rhsCandidates - ZeroaryRhs(r) && a !in x <==> MinimalFd(r, x, a)
  {
    var c :| c in UpTo(r.numColumns) && x == {c};
    TwoRowsDiffer(r, c);
    if a in r.Columns() - x && !IsConstant(r, a) {
      KeyHolds(r, x, a);
      assert x - {c} == {};
      MinimalByDropping(r, x, a);
    }
    if MinimalFd(r, x, a) {
      assert {} < x;
    }
  }

  lemma TwoRowsDiffer(r: Relation, c: nat)
    requires |r.rows| >= 2
    ensures !IsKey(r, {})
    ensures c in r.Columns() && IsKey(r, {c}) ==> !IsConstant(r, c)
  {
    assert r.IsRow(0) && r.IsRow(1) && r.Agree({}, 0, 1);
    if c in r.Columns() && IsKey(r, {c}) && IsConstant(r, c) {
      assert c in r.AgreeSet(0, 1);
      assert r.Agree({c}, 0, 1);
    }
  }

  lemma FirstVertexIsDone(x: Vertical, r: Relation, maxLhs: nat)
    requires x in Singletons(r.numColumns) && |r.rows| >= 2 && maxLhs > 0
    ensures VertexDone(FirstVertex(x, r, maxLhs), x, r)
  {
    var c :| c in UpTo(r.numColumns) && x == {c};
    var v := FirstVertex(x, r, maxLhs);
    TwoRowsDiffer(r, c);
    forall a ensures !IsKey(r, x) ==> (a in v.rhsCandidates <==> InPlus(r, x, a)) {
      assert x - {a, c} == {};
    }
    forall a | Wanted(r, x, a) ensures a in v.rhsCandidates {
      assert x - {a, c} == {};
      assert a != c ==> x - {a} == x;
    }
  }

  lemma FirstLevelIsDone(view: map<Vertical, VertexView>, r: Relation, maxLhs: nat)
    requires |r.rows| >= 2 && maxLhs > 0 && view.Keys == Singletons(r.numColumns)
    requires forall x :: x in view ==> view[x] == FirstVertex(x, r, maxLhs)
    ensures LevelDone(view, 1, r)
  {
    hide VertexDone, WantedBelow;
    forall x | x in view ensures VertexDone(view[x], x, r) && |x| == 1 && x <= r.Columns() {
      FirstVertexIsDone(x, r, maxLhs);
    }
    forall x: Vertical | x <= r.Columns() && |x| == 1 ensures x in view {
      var c :| c in x by {
        assert x != {};
      }
      Singleton(x, c);
      assert c in UpTo(r.numColumns);
    }
  }

  lemma FirstLevelRegisters(fds: seq<Fd>, middle: seq<Fd>, r: Relation, maxLhs: nat)
    requires |r.rows| >= 2 && Appended(middle, [], ConstantFds(r, r.numColumns))
    requires Appended(fds, middle, if maxLhs == 0 then {} else LevelKeyFds(r, Singletons(r.numColumns)))
    ensures Registered(fds, r, if maxLhs == 0 then 0 else 1, 1)
  {
    hide IsKey, LevelKeyFds;
    assert middle == middle[0..];
    forall x: Vertical, a: nat ensures Fd(x, a) in middle <==> InScope(r, x, a, 0, 1) {
      if Fd(x, a) in ConstantFds(r, r.numColumns) {
        assert x == {};
      }
      assert |x| <= 0 ==> x == {};
      if MinimalFd(r, {}, a) {
        assert Fd({}, a) in ConstantFds(r, r.numColumns);
      }
    }
    hide Appended, MinimalFd;
    assert Registered(middle, r, 0, 1) by {
      RegisteredConstants(middle, r);
    }
    if maxLhs == 0 {
      RegisteredMore(fds, middle, {}, r, 0, 1, 0, 1);
    } else {
      forall x: Vertical, a: nat ensures Fd(x, a) in LevelKeyFds(r, Singletons(r.numColumns)) <==>
        InScope(r, x, a, 1, 1) && !InScope(r, x, a, 0, 1)
      {
        SingletonKeyFds(r, x, a);
      }
      RegisteredMore(fds, middle, LevelKeyFds(r, Singletons(r.numColumns)), r, 0, 1, 1, 1);
    }
  }

  lemma RegisteredConstants(fds: seq<Fd>, r: Relation)
    requires Appended(fds, [], ConstantFds(r, r.numColumns))
    requires forall x: Vertical, a: nat :: Fd(x, a) in fds <==> InScope(r, x, a, 0, 1)
    ensures Registered(fds, r, 0, 1)
  {
    assert fds == fds[0..];
  }

  lemma SingletonKeyFds(r: Relation, x: Vertical, a: nat)
    requires |r.rows| >= 2
    ensures Fd(x, a) in LevelKeyFds(r, Singletons(r.numColumns)) <==> InScope(r, x, a, 1, 1) && !InScope(r, x, a, 0, 1)
  {
    hide IsKey, MinimalFd;
    if MinimalFd(r, x, a) && IsKey(r, x) && |x| == 1 {
      MinimalFdHolds(r, x, a);
      var c :| c in x by {
        assert x != {};
      }
      Singleton(x, c);
      assert c in UpTo(r.numColumns);
      SingletonKey(r, x, a);
    }
    assert |x| <= 0 ==> x == {};
  }

  lemma SingletonInside(x: Vertical, n: nat)
    requires x in Singletons(n)
    ensures x <= UpTo(n)
  {
  }

  lemma NoKeys(r: Relation)
    ensures LevelKeyFds(r, {}) == {}
  {
  }

  lemma FirstLevel(level1: Level, fds: seq<Fd>, middle: seq<Fd>, done: set<Vertical>, r: Relation, maxLhs: nat)
    requires level1.Keys == Singletons(r.numColumns) && FirstProgress(Snapshots(level1), {}, done, r, maxLhs)
    requires Appended(middle, [], ConstantFds(r, r.numColumns))
    requires Appended(fds, middle, if maxLhs == 0 then {} else LevelKeyFds(r, done))
    ensures HasIndexes(level1, r)
    ensures maxLhs > 0 ==> FlagsMatch(level1)
    ensures |r.rows| >= 2 && maxLhs > 0 ==> LevelDone(LevelView(level1), 1, r)
    ensures |r.rows| >= 2 ==> Registered(fds, r, if maxLhs == 0 then 0 else 1, 1)
    ensures |r.rows| < 2 ==> fds == []
  {
    hide LevelDone, Registered, IsKey, Appended, IsPliOf, LevelKeyFds, ConstantFds;
    assert done == Snapshots(level1).Keys == level1.Keys;
    forall x | x in level1 ensures level1[x].View() == FirstVertex(x, r, maxLhs) && HasIndex(level1[x], r, x) {
      assert SnapshotOf(level1[x]) == Snapshots(level1)[x];
    }
    if |r.rows| >= 2 {
      FirstLevelRegisters(fds, middle, r, maxLhs);
      if maxLhs > 0 {
        ViewOf(level1);
        FirstLevelIsDone(LevelView(level1), r, maxLhs);
      }
    } else {
      NoneWithoutRows(r, level1.Keys);
      NothingAppended(middle, []);
      NothingAppended(fds, middle);
    }
  }

  lemma NoneWithoutRows(r: Relation, keys: set<Vertical>)
    requires |r.rows| < 2
    ensures ConstantFds(r, r.numColumns) == {} && LevelKeyFds(r, keys) == {}
  {
  }

  ghost predicate AreSetUp(level: Level, r: Relation)
    reads level.Values
  {
    forall x :: x in level ==> IsSetUp(level[x], x, r)
  }

  ghost predicate IsSetUp(v: LatticeVertex, x: Vertical, r: Relation)
    reads v
  {
    v.vertical == x && |x| == 1 && x <= r.Columns() && HasIndex(v, r, x) && v.View() == SetUpVertex(x, r)
  }

  lemma MoreSetUp(level: Level, r: Relation, v: LatticeVertex)
    requires AreSetUp(level, r) && IsSetUp(v, v.vertical, r)
    ensures AreSetUp(level[v.vertical := v], r)
  {
  }

  lemma NoneSetUp(r: Relation)
    ensures AreSetUp(map[], r)
  {
  }

  ghost function ZeroaryBelow(r: Relation, bound: nat): Vertical {
    set a | a in ZeroaryRhs(r) && a < bound
  }

  lemma ZeroaryInside(r: Relation)
    ensures ZeroaryBelow(r, 0) == {} && ZeroaryBelow(r, r.numColumns) == ZeroaryRhs(r)
  {
  }

  lemma ZeroaryStep(r: Relation, c: nat)
    ensures ZeroaryBelow(r, c + 1) == if c in ZeroaryRhs(r) then ZeroaryBelow(r, c) + {c} else ZeroaryBelow(r, c)
  {
  }

  // keys still have to take their key test.
  ghost predicate FirstProgress(now: map<Vertical, Snapshot>, keys: set<Vertical>, done: set<Vertical>, r: Relation,
                                maxLhs: nat) {
    && keys !! done && keys + done == now.Keys
    && (forall x :: x in now ==> IsIndexOf(now[x].index, r, x))
    && (forall x :: x in keys ==> now[x].view == SetUpVertex(x, r))
    && (forall x :: x in done ==> now[x].view == FirstVertex(x, r, maxLhs))
  }

  lemma FirstProgressStart(level: Level, r: Relation, maxLhs: nat)
    requires AreSetUp(level, r)
    ensures FirstProgress(Snapshots(level), level.Keys, {}, r, maxLhs) && IsLatticeLevel(level, 1, r)
  {
    assert forall x :: x in level ==> IsSetUp(level[x], x, r);
  }

  lemma FirstProgressMeans(level: Level, keys: set<Vertical>, done: set<Vertical>, r: Relation, maxLhs: nat, x: Vertical)
    requires FirstProgress(Snapshots(level), keys, done, r, maxLhs) && x in keys
    ensures x in level && x !in done && level[x].View() == SetUpVertex(x, r) && HasIndex(level[x], r, x)
  {
    assert x in Snapshots(level);
  }

  lemma FirstProgressStep(now: map<Vertical, Snapshot>, s: Snapshot, keys: set<Vertical>, done: set<Vertical>, r: Relation,
                          maxLhs: nat, x: Vertical)
    requires FirstProgress(now, keys, done, r, maxLhs) && x in keys
    requires s.view == FirstVertex(x, r, maxLhs) && IsIndexOf(s.index, r, x)
    ensures FirstProgress(now[x := s], keys - {x}, done + {x}, r, maxLhs)
  {
  }

  // ----- the level loop -----

  // What the loop over the levels keeps: arity is the arity of the finished level.
  ghost predicate LevelReached(level: Level, fds: seq<Fd>, arity: nat, r: Relation)
    reads level.Values
  {
    && arity >= 1 && IsLatticeLevel(level, arity, r) && HasIndexes(level, r) && FlagsMatch(level)
    && (|r.rows| >= 2 ==> LevelDone(LevelView(level), arity, r) && Registered(fds, r, arity, arity))
    && (|r.rows| < 2 ==> fds == [])
  }

  // After the tests of a level, before its pruning.
  ghost predicate LevelTestsDone(level: Level, fds: seq<Fd>, arity: nat, r: Relation)
    reads level.Values
  {
    && arity >= 2 && IsLatticeLevel(level, arity, r) && HasIndexes(level, r) && FlagsMatch(level)
    && (|r.rows| >= 2 ==> LevelTested(LevelView(level), arity, r) && Registered(fds, r, arity - 1, arity))
    && (|r.rows| < 2 ==> fds == [])
  }

  // Generated vertices know their parents, and those of vertices that are not invalid have an index.
  lemma NextLevelReady(next: Level, level: Level, view: map<Vertical, VertexView>, arity: nat, r: Relation)
    requires arity >= 1 && IsLatticeLevel(level, arity, r) && HasIndexes(level, r) && FlagsMatch(level)
    requires view == LevelView(level) && NextVertices(next, level, view, arity, r)
    ensures IsLatticeLevel(next, arity + 1, r) && IsKeyed(level) && ParentsKnown(next, level) && FlagsMatch(next)
    ensures forall x :: x in next && !next[x].isInvalid ==> ParentsIndexed(level, r, x)
  {
    hide ParentsAre, IsPliOf, IsJoin, ParentsIndexed, FlagsMatch, HasIndexes, ParentsExist, LevelView, NextVertices;
    hide ParentsKnown;
    FlagsOfView(level);
    NextLevelJoined(next, level, view, arity, r);
    forall x | x in next
      ensures next[x].isKeyCandidate == !next[x].isInvalid && (!next[x].isInvalid ==> ParentsIndexed(level, r, x))
    {
      JoinedFlags(next[x].View(), level, view, r, x);
    }
    NextFlags(next);
  }

  lemma NextLevelJoined(next: Level, level: Level, view: map<Vertical, VertexView>, arity: nat, r: Relation)
    requires NextVertices(next, level, view, arity, r)
    ensures IsLatticeLevel(next, arity + 1, r) && ParentsKnown(next, level)
    ensures forall x :: x in next ==> ParentsExist(view, x) && IsJoin(next[x].View(), view, x)
  {
  }

  lemma NextFlags(level: Level)
    requires forall x :: x in level ==> level[x].isKeyCandidate == !level[x].isInvalid
    ensures FlagsMatch(level)
  {
  }

  lemma JoinedFlags(v: VertexView, level: Level, view: map<Vertical, VertexView>, r: Relation, x: Vertical)
    requires view == LevelView(level) && ParentsExist(view, x) && IsJoin(v, view, x) && HasIndexes(level, r)
    requires forall y :: y in view ==> view[y].isKeyCandidate == !view[y].isInvalid
    ensures v.isKeyCandidate == !v.isInvalid
    ensures !v.isInvalid ==> ParentsIndexed(level, r, x)
  {
    hide IsPliOf;
    ViewOf(level);
    forall b | b in x && x - {b} in level && !v.isInvalid ensures HasIndex(level[x - {b}], r, x - {b}) {
      assert !view[x - {b}].isInvalid;
    }
  }

  lemma TestsAreDone(next: Level, fds: seq<Fd>, before: seq<Fd>, generated: map<Vertical, VertexView>,
                     view: map<Vertical, VertexView>, arity: nat, r: Relation)
    requires arity >= 1 && IsLatticeLevel(next, arity + 1, r) && HasIndexes(next, r)
    requires generated.Keys == next.Keys && LevelView(next) == TestedView(generated, r)
    requires forall x :: x in generated ==> generated[x].isKeyCandidate == !generated[x].isInvalid
    requires Appended(fds, before, LevelFound(generated, next.Keys, r))
    requires |r.rows| >= 2 ==> LevelDone(view, arity, r) && IsNextLevel(generated, view, arity, r) && Registered(before, r, arity, arity)
    requires |r.rows| < 2 ==> before == []
    ensures LevelTestsDone(next, fds, arity + 1, r)
  {
    hide LevelDone, IsNextLevel, Registered, LevelTested, IsPliOf, Appended, CandidatesAfter, IsKey;
    ViewOf(next);
    forall x | x in next ensures next[x].isKeyCandidate == !next[x].isInvalid {
      assert next[x].View() == TestedVertex(generated[x], x, r);
    }
    if |r.rows| >= 2 {
      TestedLevel(generated, view, arity + 1, r);
      TestsRegister(fds, before, generated, view, arity + 1, r);
    } else {
      assert LevelFound(generated, next.Keys, r) == {};
      NothingAppended(fds, before);
    }
  }

  lemma PruningIsDone(level: Level, fds: seq<Fd>, before: seq<Fd>, view: map<Vertical, VertexView>, arity: nat, r: Relation)
    requires arity >= 2 && IsLatticeLevel(level, arity, r) && HasIndexes(level, r) && FlagsMatch(level)
    requires view.Keys == level.Keys && LevelView(level) == PrunedView(view, r)
    requires Appended(fds, before, LevelKeyFds(r, level.Keys))
    requires |r.rows| >= 2 ==> LevelTested(view, arity, r) && Registered(before, r, arity - 1, arity)
    requires |r.rows| < 2 ==> before == []
    ensures LevelReached(level, fds, arity, r)
  {
    hide LevelDone, Registered, LevelTested, Appended, LevelKeyFds, IsPliOf, IsKey;
    if |r.rows| >= 2 {
      PrunedLevelIsDone(view, arity, r);
      KeysRegister(fds, before, view, arity, r);
    } else {
      NoneWithoutRows(r, level.Keys);
      NothingAppended(fds, before);
    }
  }

  lemma FlagsOfView(level: Level)
    requires FlagsMatch(level)
    ensures forall x :: x in LevelView(level) ==> LevelView(level)[x].isKeyCandidate == !LevelView(level)[x].isInvalid
    ensures LevelView(level).Keys == level.Keys
  {
  }

  lemma ReachedMeans(level: Level, fds: seq<Fd>, arity: nat, r: Relation)
    requires LevelReached(level, fds, arity, r)
    ensures arity >= 1 && IsLatticeLevel(level, arity, r) && HasIndexes(level, r) && FlagsMatch(level)
    ensures |r.rows| >= 2 ==> LevelDone(LevelView(level), arity, r) && Registered(fds, r, arity, arity)
    ensures |r.rows| < 2 ==> fds == []
  {
  }

  lemma TestsDoneMeans(level: Level, fds: seq<Fd>, arity: nat, r: Relation)
    requires LevelTestsDone(level, fds, arity, r)
    ensures arity >= 2 && IsLatticeLevel(level, arity, r) && HasIndexes(level, r) && FlagsMatch(level)
    ensures |r.rows| >= 2 ==> LevelTested(LevelView(level), arity, r) && Registered(fds, r, arity - 1, arity)
    ensures |r.rows| < 2 ==> fds == []
  {
  }

  // The columns of a vertex bound its arity.
  lemma ArityBound(level: Level, arity: nat, r: Relation)
    requires IsLatticeLevel(level, arity, r) && level != map[]
    ensures arity <= r.numColumns
  {
    var x :| x in level;
    SubsetSize(x, r.Columns());
  }

  lemma FirstReached(level: Level, fds: seq<Fd>, r: Relation)
    requires IsLatticeLevel(level, 1, r) && HasIndexes(level, r) && FlagsMatch(level)
    requires |r.rows| >= 2 ==> LevelDone(LevelView(level), 1, r) && Registered(fds, r, 1, 1)
    requires |r.rows| < 2 ==> fds == []
    ensures LevelReached(level, fds, 1, r)
  {
  }

  lemma NoView(level: Level)
    requires level == map[]
    ensures LevelView(level) == map[]
  {
  }
}
