// FastFDs: a depth-first search for minimal covers of difference sets whose column order changes at every node.
module FastFds {
  import opened Relations
  import opened FdLists
  import opened Bits
  import opened Verticals
  import opened Transversals
  import opened SeenFds
  import opened Partitions
  import opened PositionListIndexes
  import opened AgreeSetMethods
  import AgreeSetFactories

  ghost function Members<T>(s: seq<T>): set<T> {
    set e | e in s
  }

  // ----- difference sets modulo a column -----

  ghost predicate SortedSets(sets: seq<Vertical>, n: nat) {
    && (forall i :: 0 <= i < |sets| ==> sets[i] <= UpTo(n))
    && forall i, j :: 0 <= i < j < |sets| ==> Less(sets[i], sets[j], n)
  }

  ghost function Modulo(sets: set<Vertical>, a: nat): set<Vertical> {
    set d | d in sets && a in d :: d - {a}
  }

  ghost predicate IsMinimalIn(m: Vertical, family: set<Vertical>) {
    m in family && forall s :: s in family ==> !(s < m)
  }

  // mod lists the minimal members of the family, each once, and every member contains a listed one.
  ghost predicate ListsMinimal(mod: seq<Vertical>, family: set<Vertical>) {
    && NoDuplicates(mod)
    && (forall m :: m in mod <==> IsMinimalIn(m, family))
    && (forall s :: s in family ==> exists m :: m in mod && m <= s)
  }

  // A set that comes later in the order and contains no listed set is minimal, and keeps the others minimal.
  lemma NextMinimal(mod: seq<Vertical>, family: set<Vertical>, x: Vertical)
    requires ListsMinimal(mod, family) && (forall s :: s in family ==> !(x <= s))
    requires forall m :: m in mod ==> !(m <= x)
    ensures ListsMinimal(mod + [x], family + {x})
  {
    hide IsMinimalIn;
    forall s | s in family ensures !(s <= x) {
      var m :| m in mod && m <= s;
    }
    forall m ensures m in mod + [x] <==> IsMinimalIn(m, family + {x}) {
      MinimalInMore(m, family, x);
    }
    MinimalMember(x, family + {x});
    forall s | s in family + {x} ensures exists m :: m in mod + [x] && m <= s {
      assert x in mod + [x];
      if s in family {
        var m :| m in mod && m <= s;
        assert m in mod + [x];
      }
    }
    assert x in mod ==> IsMinimalIn(x, family);
    NotMember(x, family);
  }

  lemma NotMember(x: Vertical, family: set<Vertical>)
    requires forall s :: s in family ==> !(x <= s)
    ensures !IsMinimalIn(x, family)
  {
  }

  lemma MinimalMember(x: Vertical, family: set<Vertical>)
    ensures IsMinimalIn(x, family) ==> x in family
  {
  }

  lemma MinimalInMore(m: Vertical, family: set<Vertical>, x: Vertical)
    requires forall s :: s in family ==> !(x <= s)
    ensures IsMinimalIn(m, family + {x}) <==>
      IsMinimalIn(m, family) || (m == x && forall s :: s in family ==> !(s < x))
  {
  }

  lemma NextNotMinimal(mod: seq<Vertical>, family: set<Vertical>, x: Vertical, m: Vertical)
    requires ListsMinimal(mod, family) && (forall s :: s in family ==> !(x <= s))
    requires m in mod && m <= x
    ensures ListsMinimal(mod, family + {x})
  {
    hide IsMinimalIn;
    MinimalMember(m, family);
    forall y ensures y in mod <==> IsMinimalIn(y, family + {x}) {
      MinimalInMore(y, family, x);
    }
  }

  lemma LaterIsNoSubset(sets: seq<Vertical>, i: nat, a: nat, n: nat)
    requires SortedSets(sets, n) && i < |sets| && a in sets[i]
    ensures forall s :: s in Modulo(Members(sets[..i]), a) ==> !(sets[i] - {a} <= s)
  {
    hide Less;
    forall d | d in Members(sets[..i]) && a in d ensures !(sets[i] - {a} <= d - {a}) {
      var k :| 0 <= k < i && sets[k] == d;
      LessIsNoSuperset(d, sets[i], n);
      DropBoth(sets[i], d, a);
    }
  }

  lemma DropBoth(x: Vertical, y: Vertical, a: nat)
    requires a in x && a in y
    ensures x - {a} <= y - {a} <==> x <= y
  {
    assert forall e :: e in x ==> e == a || e in x - {a};
  }

  lemma ModuloStep(sets: seq<Vertical>, i: nat, a: nat)
    requires i < |sets|
    ensures Modulo(Members(sets[..i + 1]), a) ==
      if a in sets[i] then Modulo(Members(sets[..i]), a) + {sets[i] - {a}} else Modulo(Members(sets[..i]), a)
  {
    assert sets[..i + 1] == sets[..i] + [sets[i]];
  }

  lemma ModuloNothing(sets: seq<Vertical>, a: nat)
    ensures ListsMinimal([], Modulo(Members(sets[..0]), a))
  {
    assert Modulo(Members(sets[..0]), a) == {};
  }

  lemma ListedLacksColumn(mod: seq<Vertical>, sets: set<Vertical>, a: nat)
    requires ListsMinimal(mod, Modulo(sets, a))
    ensures forall m :: m in mod ==> a !in m
  {
    forall m | m in mod ensures a !in m {
      assert IsMinimalIn(m, Modulo(sets, a));
    }
  }

  // ----- complementing and sorting -----

  ghost function Complements(r: Relation, agreeSets: set<Vertical>): set<Vertical> {
    set x | x in agreeSets :: r.Columns() - x
  }

  lemma ComplementsStep(r: Relation, agreeSets: set<Vertical>, rest: set<Vertical>, x: Vertical)
    requires rest <= agreeSets && x in rest && forall y :: y in agreeSets ==> y <= r.Columns()
    ensures r.Columns() - x !in Complements(r, agreeSets - rest)
    ensures Complements(r, agreeSets - (rest - {x})) == Complements(r, agreeSets - rest) + {r.Columns() - x}
  {
    forall y | y in agreeSets - rest ensures r.Columns() - y != r.Columns() - x {
      assert y == r.Columns() - (r.Columns() - y) && x == r.Columns() - (r.Columns() - x);
    }
    assert agreeSets - (rest - {x}) == agreeSets - rest + {x};
  }

  method InsertSorted(sets: seq<Vertical>, x: Vertical, n: nat) returns (sorted: seq<Vertical>)
    requires SortedSets(sets, n) && x <= UpTo(n) && x !in sets
    ensures SortedSets(sorted, n) && forall d :: d in sorted <==> d in sets || d == x
  {
    hide Less;
    var i := 0;
    while i < |sets| && Less(sets[i], x, n)
      invariant 0 <= i <= |sets|
      invariant forall k :: 0 <= k < i ==> Less(sets[k], x, n)
    {
      i := i + 1;
    }
    forall k | i <= k < |sets| ensures Less(x, sets[k], n) {
      LessIsTotal(x, sets[i], n);
      if k > i {
        LessIsTransitive(x, sets[i], sets[k], n);
      }
    }
    sorted := sets[..i] + [x] + sets[i..];
    assert sets == sets[..i] + sets[i..];
  }

  // ----- the order of the columns -----

  // The loop that counts how many sets contain either column.
  method OrderingComp(diffSets: seq<Vertical>, left: nat, right: nat) returns (before: bool)
    ensures before == ComesBefore(diffSets, left, right)
  {
    var leftCoverage, rightCoverage := 0, 0;
    var i := 0;
    while i < |diffSets|
      invariant 0 <= i <= |diffSets|
      invariant leftCoverage == Coverage(diffSets[..i], left) && rightCoverage == Coverage(diffSets[..i], right)
    {
      assert diffSets[..i + 1][..i] == diffSets[..i];
      if left in diffSets[i] {
        leftCoverage := leftCoverage + 1;
      }
      if right in diffSets[i] {
        rightCoverage := rightCoverage + 1;
      }
      i := i + 1;
    }
    assert diffSets[..i] == diffSets;
    CoverageCounts(diffSets, left);
    CoverageCounts(diffSets, right);
    before := if leftCoverage != rightCoverage then leftCoverage > rightCoverage else left < right;
  }

  // Larger coverage first, then the smaller index (Column::operator> looks at indices the other way around).
  ghost predicate ComesBefore(diffSets: seq<Vertical>, left: nat, right: nat) {
    var leftCoverage, rightCoverage := |Containing(diffSets, left)|, |Containing(diffSets, right)|;
    if leftCoverage != rightCoverage then leftCoverage > rightCoverage else left < right
  }

  ghost predicate IsOrdering(ordering: seq<nat>, diffSets: seq<Vertical>) {
    forall i, j :: 0 <= i < j < |ordering| ==> ComesBefore(diffSets, ordering[i], ordering[j])
  }

  // Insertion into the ordered set; an element that compares equal to a present one is not inserted,
  // but only the element itself does.
  method InsertColumn(ordering: seq<nat>, column: nat, diffSets: seq<Vertical>) returns (result: seq<nat>)
    requires IsOrdering(ordering, diffSets)
    ensures IsOrdering(result, diffSets) && Members(result) == Members(ordering) + {column}
  {
    hide Containing;
    var i := 0;
    while i < |ordering|
      invariant 0 <= i <= |ordering|
      invariant forall k :: 0 <= k < i ==> ComesBefore(diffSets, ordering[k], column)
    {
      var before := OrderingComp(diffSets, ordering[i], column);
      if !before {
        break;
      }
      i := i + 1;
    }
    if i < |ordering| {
      var before := OrderingComp(diffSets, column, ordering[i]);
      if !before {
        assert ordering[i] == column;
        return ordering;
      }
    }
    result := ordering[..i] + [column] + ordering[i..];
    assert ordering == ordering[..i] + ordering[i..];
  }

  // ----- the covers below a node of the search -----

  // The minimal covers that extend path by columns of rest.
  ghost function Covers(family: set<Vertical>, path: Vertical, rest: Vertical, maxLhs: nat): set<Vertical> {
    set c | c <= path + rest && path <= c && MinimalHitting(family, c) && |c| <= maxLhs
  }

  // Those of them that use a column in seen.
  ghost function CoversMeeting(family: set<Vertical>, path: Vertical, rest: Vertical, maxLhs: nat, seen: Vertical): set<Vertical> {
    set c | c in Covers(family, path, rest, maxLhs) && c * seen != {}
  }

  ghost function CoverFds(covers: set<Vertical>, a: nat): set<Fd> {
    set c | c in covers :: Fd(c, a)
  }

  // What the node knows: current are the sets that path does not meet.
  ghost predicate AtNode(current: seq<Vertical>, mod: seq<Vertical>, path: Vertical) {
    forall s :: s in current <==> s in mod && path * s == {}
  }

  lemma LongPath(family: set<Vertical>, path: Vertical, rest: Vertical, maxLhs: nat)
    requires |path| > maxLhs
    ensures Covers(family, path, rest, maxLhs) == {}
  {
    forall c: Vertical | path <= c ensures |c| > maxLhs {
      SubsetSize(path, c);
    }
  }

  lemma NoColumnsLeft(current: seq<Vertical>, mod: seq<Vertical>, path: Vertical, maxLhs: nat)
    requires AtNode(current, mod, path) && current != []
    ensures Covers(Members(mod), path, {}, maxLhs) == {}
  {
    assert current[0] in current;
    assert path * current[0] == {};
    forall c: Vertical | c <= path + {} && path <= c ensures !MinimalHitting(Members(mod), c) {
      assert c == path;
    }
  }

  lemma PathIsCover(mod: seq<Vertical>, path: Vertical, rest: Vertical, maxLhs: nat)
    requires AtNode([], mod, path) && |path| <= maxLhs
    ensures Covers(Members(mod), path, rest, maxLhs) == if MinimalHitting(Members(mod), path) then {path} else {}
  {
    assert Hits(Members(mod), path) by {
      forall s | s in Members(mod) ensures path * s != {} {
        assert s !in [];
      }
    }
    forall c | c in Covers(Members(mod), path, rest, maxLhs) ensures c == path {
      assert path <= c;
    }
  }

  // The columns for the next node: later ones that some set still to be met contains.
  ghost predicate IsNextRest(nextRest: Vertical, later: Vertical, next: seq<Vertical>) {
    forall b :: b in nextRest <==> b in later && exists s :: s in next && b in s
  }

  // A minimal cover that takes column and none of seen is found below the branch of column.
  lemma CoverInBranch(next: seq<Vertical>, mod: seq<Vertical>, path: Vertical, rest: Vertical, maxLhs: nat,
                      seen: Vertical, column: nat, later: Vertical, nextRest: Vertical, c: Vertical)
    requires rest == seen + {column} + later && path !! rest
    requires AtNode(next, mod, path + {column}) && IsNextRest(nextRest, later, next)
    requires c in Covers(Members(mod), path, rest, maxLhs) && column in c && c * seen == {}
    ensures c in Covers(Members(mod), path + {column}, nextRest, maxLhs)
  {
    forall b | b in c - path - {column} ensures b in nextRest {
      var s := PrivateMember(Members(mod), c, b);
      assert b !in seen by {
        assert b in seen ==> b in c * seen;
      }
      assert b in c * s;
      forall e | e in path + {column} ensures e !in s {
        assert e in c && e != b;
        assert e in s ==> e in c * s;
      }
      assert s in next;
    }
  }

  lemma BranchIsCover(next: seq<Vertical>, mod: seq<Vertical>, path: Vertical, rest: Vertical, maxLhs: nat,
                      seen: Vertical, column: nat, later: Vertical, nextRest: Vertical, c: Vertical)
    requires rest == seen + {column} + later && column !in seen && later !! seen && path !! rest
    requires IsNextRest(nextRest, later, next)
    requires c in Covers(Members(mod), path + {column}, nextRest, maxLhs)
    ensures c in Covers(Members(mod), path, rest, maxLhs) && column in c && c * seen == {}
  {
  }

  // One branch: the covers whose first column in the order is column.
  lemma Branch(next: seq<Vertical>, mod: seq<Vertical>, path: Vertical, rest: Vertical, maxLhs: nat,
               seen: Vertical, column: nat, later: Vertical, nextRest: Vertical)
    requires rest == seen + {column} + later && column !in seen && later !! seen && path !! rest
    requires AtNode(next, mod, path + {column}) && IsNextRest(nextRest, later, next)
    ensures var family := Members(mod);
      && CoversMeeting(family, path, rest, maxLhs, seen + {column}) ==
        CoversMeeting(family, path, rest, maxLhs, seen) + Covers(family, path + {column}, nextRest, maxLhs)
      && CoversMeeting(family, path, rest, maxLhs, seen) !! Covers(family, path + {column}, nextRest, maxLhs)
  {
    hide AtNode, IsNextRest, MinimalHitting, Covers;
    var family := Members(mod);
    forall c ensures c in Covers(family, path + {column}, nextRest, maxLhs) <==>
      c in Covers(family, path, rest, maxLhs) && column in c && c * seen == {}
    {
      if c in Covers(family, path + {column}, nextRest, maxLhs) {
        BranchIsCover(next, mod, path, rest, maxLhs, seen, column, later, nextRest, c);
      }
      if c in Covers(family, path, rest, maxLhs) && column in c && c * seen == {} {
        CoverInBranch(next, mod, path, rest, maxLhs, seen, column, later, nextRest, c);
      }
    }
    forall c: Vertical ensures c * (seen + {column}) != {} <==> column in c || c * seen != {} {
      assert c * (seen + {column}) == c * seen + c * {column};
      assert column in c ==> column in c * {column};
      assert column !in c ==> c * {column} == {};
    }
  }

  lemma AllBranches(current: seq<Vertical>, mod: seq<Vertical>, path: Vertical, rest: Vertical, maxLhs: nat)
    requires AtNode(current, mod, path) && current != []
    ensures CoversMeeting(Members(mod), path, rest, maxLhs, rest) == Covers(Members(mod), path, rest, maxLhs)
  {
    assert current[0] in current;
    assert path * current[0] == {};
    forall c | c in Covers(Members(mod), path, rest, maxLhs) ensures c * rest != {} {
      assert c * current[0] != {};
      var e :| e in c * current[0];
      assert e !in path * current[0];
      assert e in c * rest;
    }
  }

  lemma NoBranches(family: set<Vertical>, path: Vertical, rest: Vertical, maxLhs: nat, a: nat, fds: seq<Fd>)
    ensures Appended(fds, fds, CoverFds(CoversMeeting(family, path, rest, maxLhs, {}), a))
  {
    forall c ensures c !in CoversMeeting(family, path, rest, maxLhs, {}) {
      assert c * {} == {};
    }
    assert CoverFds(CoversMeeting(family, path, rest, maxLhs, {}), a) == {};
  }

  lemma MoreCovers(fds: seq<Fd>, middle: seq<Fd>, before: seq<Fd>, first: set<Vertical>, second: set<Vertical>, a: nat)
    requires Appended(middle, before, CoverFds(first, a)) && Appended(fds, middle, CoverFds(second, a)) && first !! second
    ensures Appended(fds, before, CoverFds(first + second, a))
  {
    assert CoverFds(first + second, a) == CoverFds(first, a) + CoverFds(second, a);
    assert CoverFds(first, a) !! CoverFds(second, a);
    AppendMore(fds, middle, before, CoverFds(first, a), CoverFds(second, a));
  }

  class FastFDs {
    const relation: Relation
    const columnData: seq<PositionListIndex>
    const maxLhs: nat
    const asGenMethod: AgreeSetsGenMethod
    const mcGenMethod: McGenMethod
    var diffSets: seq<Vertical>
    var fdCollection: seq<Fd>

    ghost predicate Fitted() {
      AreColumnPlis(columnData, relation)
    }

    constructor (relation: Relation, columnData: seq<PositionListIndex>, maxLhs: nat, asGenMethod: AgreeSetsGenMethod,
                 mcGenMethod: McGenMethod)
      requires AreColumnPlis(columnData, relation)
      ensures Fitted() && this.relation == relation && this.maxLhs == maxLhs && diffSets == [] && fdCollection == []
      ensures this.asGenMethod == asGenMethod && this.mcGenMethod == mcGenMethod
    {
      this.asGenMethod, this.mcGenMethod := asGenMethod, mcGenMethod;
      this.relation, this.columnData, this.maxLhs := relation, columnData, maxLhs;
      diffSets, fdCollection := [], [];
    }

    method RegisterFd(lhs: Vertical, rhs: nat)
      modifies this`fdCollection
      ensures fdCollection == old(fdCollection) + [Fd(lhs, rhs)]
    {
      fdCollection := fdCollection + [Fd(lhs, rhs)];
    }

    // Lets the factory generate the agree sets, and keeps their complements in ascending order.
    method GenDiffSets() returns (agreeSets: set<Vertical>)
      requires Fitted()
      modifies this`diffSets
      ensures AgreeSetFactories.MayGenerate(relation, asGenMethod, mcGenMethod, agreeSets) && AreSomeAgreeSets(agreeSets, relation)
      ensures SortedSets(diffSets, relation.numColumns)
      ensures Members(diffSets) == Complements(relation, agreeSets)
    {
      hide AgreeSetFactories.MayGenerate, AgreeSets, Fitted, AreColumnPlis;
      assert AreColumnPlis(columnData, relation) by {
        FittedColumns();
      }
      agreeSets := AgreeSetFactories.FactoryAgreeSets(relation, columnData, asGenMethod, mcGenMethod);
      AgreeSetsInside(relation);
      var n := relation.numColumns;
      diffSets := [];
      var rest := agreeSets;
      while rest != {}
        invariant rest <= agreeSets && SortedSets(diffSets, n)
        invariant forall d :: d in diffSets <==> d in Complements(relation, agreeSets - rest)
        decreases rest
      {
        var agreeSet :| agreeSet in rest;
        ComplementsStep(relation, agreeSets, rest, agreeSet);
        diffSets := InsertSorted(diffSets, relation.Columns() - agreeSet, n);
        rest := rest - {agreeSet};
      }
      assert agreeSets - rest == agreeSets;
    }

    lemma FittedColumns()
      requires Fitted()
      ensures AreColumnPlis(columnData, relation)
    {
    }

    // The minimal difference sets modulo a column: as subsets come first, it is enough to look at the kept ones.
    method GetDiffSetsMod(col: nat) returns (diffSetsMod: seq<Vertical>)
      requires SortedSets(diffSets, relation.numColumns)
      ensures ListsMinimal(diffSetsMod, Modulo(Members(diffSets), col))
    {
      hide ListsMinimal, Modulo, SortedSets;
      diffSetsMod := [];
      ModuloNothing(diffSets, col);
      var i := 0;
      while i < |diffSets|
        invariant 0 <= i <= |diffSets| && ListsMinimal(diffSetsMod, Modulo(Members(diffSets[..i]), col))
      {
        var diffSet := diffSets[i];
        ModuloStep(diffSets, i, col);
        if col in diffSet {
          LaterIsNoSubset(diffSets, i, col, relation.numColumns);
          ghost var family := Modulo(Members(diffSets[..i]), col);
          var isMinimal, j := true, 0;
          ListedLacksColumn(diffSetsMod, Members(diffSets[..i]), col);
          while j < |diffSetsMod|
            invariant 0 <= j <= |diffSetsMod| && isMinimal
            invariant forall k :: 0 <= k < j ==> !(diffSetsMod[k] <= diffSet - {col})
          {
            if diffSetsMod[j] <= diffSet {
              isMinimal := false;
              break;
            }
            j := j + 1;
          }
          if isMinimal {
            NextMinimal(diffSetsMod, family, diffSet - {col});
            diffSetsMod := diffSetsMod + [diffSet - {col}];
          } else {
            NextNotMinimal(diffSetsMod, family, diffSet - {col}, diffSetsMod[j]);
          }
        }
        i := i + 1;
      }
      assert diffSets[..i] == diffSets;
    }

    // All columns but the right-hand side.
    method GetInitOrdering(diffSetsMod: seq<Vertical>, attribute: nat) returns (ordering: seq<nat>)
      ensures IsOrdering(ordering, diffSetsMod) && Members(ordering) == relation.Columns() - {attribute}
    {
      hide Containing;
      ordering := [];
      var c := 0;
      while c < relation.numColumns
        invariant c <= relation.numColumns && IsOrdering(ordering, diffSetsMod)
        invariant Members(ordering) == UpTo(c) - {attribute}
      {
        if c != attribute {
          ordering := InsertColumn(ordering, c, diffSetsMod);
        }
        c := c + 1;
      }
    }

    // The columns after the i-th one that some remaining set contains, in the order of the remaining sets.
    method GetNextOrdering(nextDiffSets: seq<Vertical>, i: nat, curOrdering: seq<nat>) returns (ordering: seq<nat>)
      requires i < |curOrdering|
      ensures IsOrdering(ordering, nextDiffSets)
      ensures IsNextRest(Members(ordering), Members(curOrdering[i + 1..]), nextDiffSets)
    {
      hide Containing;
      var diffSetsCols: Vertical := {};
      var j := 0;
      while j < |nextDiffSets|
        invariant 0 <= j <= |nextDiffSets|
        invariant forall b :: b in diffSetsCols <==> exists k :: 0 <= k < j && b in nextDiffSets[k]
      {
        diffSetsCols := diffSetsCols + nextDiffSets[j];
        j := j + 1;
      }
      ordering := [];
      var p := i + 1;
      while p < |curOrdering|
        invariant i < p <= |curOrdering| && IsOrdering(ordering, nextDiffSets)
        invariant forall b :: b in Members(ordering) <==> b in curOrdering[i + 1..p] && b in diffSetsCols
      {
        assert curOrdering[i + 1..p + 1] == curOrdering[i + 1..p] + [curOrdering[p]];
        if curOrdering[p] in diffSetsCols {
          ordering := InsertColumn(ordering, curOrdering[p], nextDiffSets);
        }
        p := p + 1;
      }
      assert curOrdering[i + 1..p] == curOrdering[i + 1..];
    }

    method IsCover(candidate: Vertical, sets: seq<Vertical>) returns (covers: bool)
      ensures covers <==> Hits(Members(sets), candidate)
    {
      var i := 0;
      while i < |sets|
        invariant 0 <= i <= |sets| && forall k :: 0 <= k < i ==> candidate * sets[k] != {}
      {
        if sets[i] * candidate == {} {
          assert candidate * sets[i] == sets[i] * candidate && sets[i] in Members(sets);
          return false;
        }
        i := i + 1;
      }
      covers := true;
    }

    // A cover from which no single column can be dropped.
    method CoverMinimal(cover: Vertical, diffSetsMod: seq<Vertical>) returns (minimal: bool)
      requires Hits(Members(diffSetsMod), cover) && cover <= relation.Columns()
      ensures minimal <==> MinimalHitting(Members(diffSetsMod), cover)
    {
      hide Hits, MinimalHitting;
      var column := FindFrom(cover, 0, relation.numColumns);
      while column < relation.numColumns
        invariant column <= relation.numColumns && (column < relation.numColumns ==> column in cover)
        invariant forall b :: b in cover && b < column ==> !Hits(Members(diffSetsMod), cover - {b})
        decreases relation.numColumns - column
      {
        var subsetCovers := IsCover(cover - {column}, diffSetsMod);
        if subsetCovers {
          NotMinimalCover(Members(diffSetsMod), cover, column);
          return false;
        }
        column := FindNext(cover, column, relation.numColumns);
      }
      MinimalHittingByDropping(Members(diffSetsMod), cover);
      minimal := true;
    }

    // The sets that the column does not meet either.
    method GetNextDiffSets(curDiffSets: seq<Vertical>, column: nat, ghost diffSetsMod: seq<Vertical>, ghost path: Vertical)
      returns (nextDiffSets: seq<Vertical>)
      requires AtNode(curDiffSets, diffSetsMod, path)
      ensures AtNode(nextDiffSets, diffSetsMod, path + {column})
    {
      nextDiffSets := [];
      var j := 0;
      while j < |curDiffSets|
        invariant 0 <= j <= |curDiffSets|
        invariant forall s :: s in nextDiffSets <==> s in curDiffSets[..j] && column !in s
      {
        assert curDiffSets[..j + 1] == curDiffSets[..j] + [curDiffSets[j]];
        if column !in curDiffSets[j] {
          nextDiffSets := nextDiffSets + [curDiffSets[j]];
        }
        j := j + 1;
      }
      assert curDiffSets[..j] == curDiffSets;
      NextNode(curDiffSets, nextDiffSets, diffSetsMod, path, column);
    }

    // The depth-first search: registers every minimal cover below the node exactly once and nothing else.
    method FindCovers(attribute: nat, diffSetsMod: seq<Vertical>, curDiffSets: seq<Vertical>, path: Vertical,
                      ordering: seq<nat>)
      requires AtNode(curDiffSets, diffSetsMod, path) && IsOrdering(ordering, curDiffSets)
      requires path !! Members(ordering) && path + Members(ordering) <= relation.Columns()
      modifies this`fdCollection
      ensures Appended(fdCollection, old(fdCollection),
        CoverFds(Covers(Members(diffSetsMod), path, Members(ordering), maxLhs), attribute))
      decreases Members(ordering)
    {
      hide Appended, AtNode, Covers, CoverFds, CoversMeeting, IsNextRest, Containing, MinimalHitting, Hits;
      ghost var family, rest := Members(diffSetsMod), Members(ordering);
      NoFds(attribute, fdCollection);
      if |path| > maxLhs {
        LongPath(family, path, rest, maxLhs);
        return;
      }
      if |ordering| == 0 && curDiffSets != [] {
        NoColumnsLeft(curDiffSets, diffSetsMod, path, maxLhs);
        assert rest == {};
        return;
      }
      if curDiffSets == [] {
        PathIsCover(diffSetsMod, path, rest, maxLhs);
        PathHits(diffSetsMod, path);
        var minimal := CoverMinimal(path, diffSetsMod);
        if minimal {
          OneFd(attribute, path, fdCollection);
          RegisterFd(path, attribute);
        }
        return;
      }
      NoBranches(family, path, rest, maxLhs, attribute, fdCollection);
      OrderingDistinct(ordering, curDiffSets);
      var i := 0;
      ghost var seen: Vertical := {};
      while i < |ordering|
        invariant 0 <= i <= |ordering| && seen == Members(ordering[..i])
        invariant Appended(fdCollection, old(fdCollection), CoverFds(CoversMeeting(family, path, rest, maxLhs, seen), attribute))
      {
        var column := ordering[i];
        OrderingSplits(ordering, i);
        var nextDiffSets := GetNextDiffSets(curDiffSets, column, diffSetsMod, path);
        var nextOrdering := GetNextOrdering(nextDiffSets, i, ordering);
        ghost var later, middle := Members(ordering[i + 1..]), fdCollection;
        NextRestInside(Members(nextOrdering), later, nextDiffSets);
        FindCovers(attribute, diffSetsMod, nextDiffSets, path + {column}, nextOrdering);
        Branch(nextDiffSets, diffSetsMod, path, rest, maxLhs, seen, column, later, Members(nextOrdering));
        MoreCovers(fdCollection, middle, old(fdCollection), CoversMeeting(family, path, rest, maxLhs, seen),
          Covers(family, path + {column}, Members(nextOrdering), maxLhs), attribute);
        i, seen := i + 1, seen + {column};
      }
      assert ordering[..i] == ordering;
      AllBranches(curDiffSets, diffSetsMod, path, rest, maxLhs);
    }

    // One column as the right-hand side.
    method ProcessColumn(column: nat, ghost agreeSets: set<Vertical>)
      requires Fitted() && column < relation.numColumns
      requires SortedSets(diffSets, relation.numColumns)
      requires Members(diffSets) == Complements(relation, agreeSets)
      modifies this`fdCollection
      ensures Appended(fdCollection, old(fdCollection), SeenFdsOf(relation, agreeSets, column, maxLhs))
    {
      hide Appended, Containing, IsPliOf, CoverFds, Covers, ListsMinimal, SortedSets;
      ConstantColumn(columnData[column], relation, column);
      if columnData[column].IsConstant() {
        ConstantFd(relation, agreeSets, column, maxLhs);
        OneMoreFd(Fd({}, column), fdCollection);
        RegisterFd({}, column);
        return;
      }
      var diffSetsMod := GetDiffSetsMod(column);
      CoversAreSeenFds(diffSetsMod, relation, agreeSets, column, maxLhs);
      ghost var rest := relation.Columns() - {column};
      if |diffSetsMod| == 1 && diffSetsMod[0] == {} {
        NothingHitsEmpty(diffSetsMod, {}, rest, maxLhs, column);
        AppendNothing(fdCollection);
        return;
      }
      StartNode(diffSetsMod);
      var initOrdering := GetInitOrdering(diffSetsMod, column);
      FindCovers(column, diffSetsMod, diffSetsMod, {}, initOrdering);
    }

    // The run finds exactly what the generated agree sets let appear as minimal dependencies; these are the minimal
    // dependencies when the agree sets suffice.
    method ExecuteInternal() returns (ghost agreeSets: set<Vertical>)
      requires Fitted() && fdCollection == []
      modifies this
      ensures AgreeSetFactories.MayGenerate(relation, asGenMethod, mcGenMethod, agreeSets) && AreSomeAgreeSets(agreeSets, relation)
      ensures ListsSeenFds(fdCollection, relation, agreeSets, maxLhs)
      ensures Suffices(agreeSets, relation) ==> ListsMinimalFdsUpTo(fdCollection, relation, maxLhs)
    {
      hide Appended, ListsMinimalFdsUpTo, SeenFdsOf, SortedSets, AgreeSets, SeenFdsBelow, Members, Complements, Fitted;
      hide ListsSeenFds, Suffices, AgreeSetFactories.MayGenerate;
      agreeSets := GenDiffSets();
      NoColumnsYet(relation, agreeSets, maxLhs);
      if |diffSets| == 1 && diffSets[0] == {} {
        OnlyEmptyDifference(diffSets, relation, agreeSets, maxLhs);
        ListedIsMinimal(fdCollection, relation, agreeSets, maxLhs);
        return;
      }
      var c := 0;
      while c < relation.numColumns
        invariant c <= relation.numColumns
        invariant SortedSets(diffSets, relation.numColumns) && Members(diffSets) == Complements(relation, agreeSets)
        invariant Appended(fdCollection, [], SeenFdsBelow(relation, agreeSets, c, maxLhs))
      {
        ghost var middle := fdCollection;
        ProcessColumn(c, agreeSets);
        MoreColumns(fdCollection, middle, relation, agreeSets, c, maxLhs);
        c := c + 1;
      }
      AllColumns(fdCollection, relation, agreeSets, maxLhs);
      ListedIsMinimal(fdCollection, relation, agreeSets, maxLhs);
    }
  }

  // ----- lemmas of the search -----

  lemma NextNode(current: seq<Vertical>, next: seq<Vertical>, mod: seq<Vertical>, path: Vertical, column: nat)
    requires AtNode(current, mod, path) && forall s :: s in next <==> s in current && column !in s
    ensures AtNode(next, mod, path + {column})
  {
    forall s: Vertical ensures (path + {column}) * s == {} <==> path * s == {} && column !in s {
      assert (path + {column}) * s == path * s + {column} * s;
      assert column in s ==> column in {column} * s;
      assert column !in s ==> {column} * s == {};
    }
  }

  lemma NotMinimalCover(family: set<Vertical>, x: Vertical, b: nat)
    requires b in x && Hits(family, x - {b})
    ensures !MinimalHitting(family, x)
  {
    assert x - {b} < x;
  }

  lemma NoFds(a: nat, fds: seq<Fd>)
    ensures CoverFds({}, a) == {} && Appended(fds, fds, {})
  {
    AppendNothing(fds);
  }

  lemma OneFd(a: nat, x: Vertical, fds: seq<Fd>)
    ensures Appended(fds + [Fd(x, a)], fds, CoverFds({x}, a))
  {
    assert CoverFds({x}, a) == {Fd(x, a)};
    OneMoreFd(Fd(x, a), fds);
  }

  lemma PathHits(mod: seq<Vertical>, path: Vertical)
    requires AtNode([], mod, path)
    ensures Hits(Members(mod), path)
  {
    forall s | s in Members(mod) ensures path * s != {} {
      assert s !in [];
    }
  }

  lemma OrderingDistinct(ordering: seq<nat>, diffSets: seq<Vertical>)
    requires IsOrdering(ordering, diffSets)
    ensures NoDuplicates(ordering)
  {
    hide Containing;
    forall i, j | 0 <= i < j < |ordering| ensures ordering[i] != ordering[j] {
      assert ComesBefore(diffSets, ordering[i], ordering[j]);
    }
  }

  lemma OrderingSplits(ordering: seq<nat>, i: nat)
    requires i < |ordering| && NoDuplicates(ordering)
    ensures var seen, later := Members(ordering[..i]), Members(ordering[i + 1..]);
      && Members(ordering) == seen + {ordering[i]} + later
      && ordering[i] !in seen && ordering[i] !in later && seen !! later
      && Members(ordering[..i + 1]) == seen + {ordering[i]}
  {
    assert ordering == ordering[..i] + [ordering[i]] + ordering[i + 1..];
    assert ordering[..i + 1] == ordering[..i] + [ordering[i]];
  }

  lemma NextRestInside(nextRest: Vertical, later: Vertical, next: seq<Vertical>)
    requires IsNextRest(nextRest, later, next)
    ensures nextRest <= later
  {
  }

  lemma StartNode(mod: seq<Vertical>)
    ensures AtNode(mod, mod, {})
  {
    assert forall s: Vertical :: {} * s == {};
  }

  lemma NothingHitsEmpty(mod: seq<Vertical>, path: Vertical, rest: Vertical, maxLhs: nat, a: nat)
    requires {} in mod
    ensures CoverFds(Covers(Members(mod), path, rest, maxLhs), a) == {}
  {
    forall c: Vertical ensures !MinimalHitting(Members(mod), c) {
      assert c * {} == {};
    }
  }

  lemma ListedIsMinimal(fds: seq<Fd>, r: Relation, agreeSets: set<Vertical>, maxLhs: nat)
    requires AreSomeAgreeSets(agreeSets, r) && ListsSeenFds(fds, r, agreeSets, maxLhs)
    ensures Suffices(agreeSets, r) ==> ListsMinimalFdsUpTo(fds, r, maxLhs)
  {
    hide Suffices, ListsSeenFds, ListsMinimalFdsUpTo, AreSomeAgreeSets;
    if Suffices(agreeSets, r) {
      SufficientUpTo(fds, r, agreeSets, maxLhs);
    }
  }

  // Listing only the minimal difference sets changes no cover.
  lemma CoversAreSeenFds(mod: seq<Vertical>, r: Relation, agreeSets: set<Vertical>, a: nat, maxLhs: nat)
    requires a in r.Columns() && !IsConstant(r, a)
    requires ListsMinimal(mod, Modulo(Complements(r, agreeSets), a))
    ensures CoverFds(Covers(Members(mod), {}, r.Columns() - {a}, maxLhs), a) == SeenFdsOf(r, agreeSets, a, maxLhs)
  {
    hide MinimalHitting, DifferenceFamily, Refines, ListsMinimal, Modulo, Complements, IsConstant, SeenFd;
    var all := Modulo(Complements(r, agreeSets), a);
    DifferencesModulo(r, agreeSets, a);
    ListedRefines(mod, all);
    ListedInside(mod, all);
    ListedDifferencesAreSeen(Members(mod), r, agreeSets, a);
    forall x | SeenFd(r, agreeSets, x, a) ensures x <= {} + (r.Columns() - {a}) {
      SeenFdInside(r, agreeSets, x, a);
    }
  }

  lemma ListedInside(mod: seq<Vertical>, family: set<Vertical>)
    requires ListsMinimal(mod, family)
    ensures Members(mod) <= family
  {
    hide IsMinimalIn;
    forall m | m in Members(mod) ensures m in family {
      MinimalMember(m, family);
    }
  }

  lemma ListedRefines(mod: seq<Vertical>, family: set<Vertical>)
    requires ListsMinimal(mod, family)
    ensures Refines(family, Members(mod))
  {
    hide IsMinimalIn;
    forall s | s in family ensures exists m :: m in Members(mod) && m <= s {
      var m :| m in mod && m <= s;
      assert m in Members(mod);
    }
  }

  lemma DifferencesModulo(r: Relation, agreeSets: set<Vertical>, a: nat)
    requires a in r.Columns()
    ensures Modulo(Complements(r, agreeSets), a) == DifferenceFamily(r, agreeSets, a)
  {
    var family, all := DifferenceFamily(r, agreeSets, a), Modulo(Complements(r, agreeSets), a);
    forall s | s in all ensures s in family {
      var d :| d in Complements(r, agreeSets) && a in d && s == d - {a};
      var x :| x in agreeSets && d == r.Columns() - x;
    }
    forall x | x in agreeSets && a !in x ensures r.Columns() - x - {a} in all {
      assert r.Columns() - x in Complements(r, agreeSets);
    }
  }

  // The one difference set of the empty agree set is empty only without columns.
  lemma OnlyEmptyDifference(diffSets: seq<Vertical>, r: Relation, agreeSets: set<Vertical>, maxLhs: nat)
    requires |diffSets| == 1 && diffSets[0] == {} && Members(diffSets) == Complements(r, agreeSets) && {} in agreeSets
    ensures ListsSeenFds([], r, agreeSets, maxLhs)
  {
    assert r.Columns() - {} in Complements(r, agreeSets);
    assert r.Columns() == {};
  }
}
