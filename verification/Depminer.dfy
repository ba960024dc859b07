// Depminer: minimal transversals of complemented maximal agree sets by a level-wise search.
module Depminer {
  import opened Relations
  import opened FdLists
  import opened Bits
  import opened Transversals
  import opened SeenFds
  import opened Partitions
  import opened PositionListIndexes
  import opened AgreeSetMethods
  import AgreeSetFactories

  datatype CMaxSet = CMaxSet(column: nat, combinations: set<Vertical>)

  // ----- maximal sets -----

  ghost predicate AreMaximal(superSets: set<Vertical>, family: set<Vertical>) {
    forall m :: m in superSets <==> IsMaximalIn(m, family)
  }

  ghost predicate IsMaximalIn(m: Vertical, family: set<Vertical>) {
    m in family && forall s :: s in family ==> !(m < s)
  }

  // Every member lies inside a maximal one.
  lemma {:induction false} MaximalAbove(family: set<Vertical>, s: Vertical, bound: Vertical) returns (m: Vertical)
    requires s in family && forall t :: t in family ==> t <= bound
    ensures IsMaximalIn(m, family) && s <= m
    decreases bound - s
  {
    if t :| t in family && s < t {
      m := MaximalAbove(family, t, bound);
    } else {
      m := s;
    }
  }

  // A new set replaces the maximal sets inside it, unless it lies inside one itself.
  lemma NextMaximal(superSets: set<Vertical>, family: set<Vertical>, x: Vertical, bound: Vertical)
    requires AreMaximal(superSets, family) && x !in family
    requires (forall t :: t in family ==> t <= bound) && x <= bound
    ensures var inside := set m | m in superSets && m <= x;
      AreMaximal(if exists m :: m in superSets && x <= m then superSets else superSets - inside + {x}, family + {x})
    ensures (exists m :: m in superSets && x <= m) ==> forall m :: m in superSets ==> !(m <= x)
  {
    hide AreMaximal, IsMaximalIn;
    assert forall m :: m in superSets <==> IsMaximalIn(m, family) by {
      MaximalMeans(superSets, family);
    }
    if m0 :| m0 in superSets && x <= m0 {
      forall m | m in superSets ensures !(m <= x) {
        NoChain(family, m, x, m0);
      }
      forall y ensures y in superSets <==> IsMaximalIn(y, family + {x}) {
        MaximalWithInside(family, x, m0, y);
      }
      MaximalWhen(superSets, family + {x});
    } else {
      var news := superSets - (set m | m in superSets && m <= x) + {x};
      forall y ensures y in news <==> IsMaximalIn(y, family + {x}) {
        MaximalWithOutside(superSets, family, x, bound, y);
      }
      MaximalWhen(news, family + {x});
    }
  }

  lemma MaximalMeans(superSets: set<Vertical>, family: set<Vertical>)
    requires AreMaximal(superSets, family)
    ensures forall m :: m in superSets <==> IsMaximalIn(m, family)
  {
  }

  lemma MaximalWhen(superSets: set<Vertical>, family: set<Vertical>)
    requires forall m :: m in superSets <==> IsMaximalIn(m, family)
    ensures AreMaximal(superSets, family)
  {
  }

  lemma NoChain(family: set<Vertical>, m: Vertical, x: Vertical, m0: Vertical)
    requires IsMaximalIn(m, family) && IsMaximalIn(m0, family) && x !in family && x <= m0
    ensures !(m <= x)
  {
    assert m0 <= x ==> m0 == x;
    assert x <= m ==> x == m || !(m <= x);
    assert m <= x ==> m < m0;
  }

  lemma MaximalWithInside(family: set<Vertical>, x: Vertical, m0: Vertical, y: Vertical)
    requires IsMaximalIn(m0, family) && x <= m0 && x !in family
    ensures IsMaximalIn(y, family + {x}) <==> IsMaximalIn(y, family)
  {
    assert m0 <= x ==> m0 == x;
  }

  lemma MaximalWithOutside(superSets: set<Vertical>, family: set<Vertical>, x: Vertical, bound: Vertical, y: Vertical)
    requires forall m :: m in superSets <==> IsMaximalIn(m, family)
    requires (forall t :: t in family ==> t <= bound) && x !in family
    requires forall m :: m in superSets ==> !(x <= m)
    ensures IsMaximalIn(y, family + {x}) <==> (y in superSets && !(y <= x)) || y == x
  {
    forall s | s in family ensures !(x < s) {
      var m := MaximalAbove(family, s, bound);
      assert m in superSets;
    }
    if IsMaximalIn(y, family + {x}) && y != x {
      assert IsMaximalIn(y, family);
    }
  }

  // ----- transversals by levels -----

  // The level of the search before its transversals are taken out.
  ghost function LevelOf(family: set<Vertical>, universe: Vertical, k: nat): set<Vertical> {
    set x | x <= universe && |x| == k && forall b :: b in x ==> !Hits(family, x - {b})
  }

  // The sets of the level that are no transversals.
  ghost function MissesOf(family: set<Vertical>, universe: Vertical, k: nat): set<Vertical> {
    set x | x <= universe && |x| == k && !Hits(family, x)
  }

  lemma LevelSplits(family: set<Vertical>, universe: Vertical, k: nat, x: Vertical)
    ensures x in MissesOf(family, universe, k) <==> x in LevelOf(family, universe, k) && !Hits(family, x)
    ensures x in LevelOf(family, universe, k) && Hits(family, x) <==> x <= universe && |x| == k && MinimalHitting(family, x)
  {
    if x in MissesOf(family, universe, k) {
      forall b | b in x ensures !Hits(family, x - {b}) {
        if Hits(family, x - {b}) {
          HitsMonotone(family, x - {b}, x);
        }
      }
    }
    if x in LevelOf(family, universe, k) && Hits(family, x) {
      MinimalHittingByDropping(family, x);
    }
    if MinimalHitting(family, x) {
      assert forall b :: b in x ==> x - {b} < x;
    }
  }

  // What the apriori step generates: the sets all of whose immediate subsets are in the level.
  ghost predicate IsNextOf(next: set<Vertical>, level: set<Vertical>, k: nat) {
    forall c: Vertical :: c in next <==> |c| == k + 1 && forall b :: b in c ==> c - {b} in level
  }

  lemma NextIsLevel(next: set<Vertical>, family: set<Vertical>, universe: Vertical, k: nat)
    requires IsNextOf(next, MissesOf(family, universe, k), k) && k >= 1
    ensures next == LevelOf(family, universe, k + 1)
  {
    hide Hits;
    forall c: Vertical ensures c in next <==> c in LevelOf(family, universe, k + 1) {
      if |c| == k + 1 {
        NextMember(family, universe, k, c);
      }
    }
  }

  lemma NextMember(family: set<Vertical>, universe: Vertical, k: nat, c: Vertical)
    requires |c| == k + 1 && k >= 1
    ensures (forall b :: b in c ==> c - {b} in MissesOf(family, universe, k)) <==> c in LevelOf(family, universe, k + 1)
  {
    hide Hits, LevelOf, MissesOf;
    if c in LevelOf(family, universe, k + 1) {
      forall b | b in c ensures c - {b} in MissesOf(family, universe, k) {
        LevelMember(family, universe, k, c, b);
      }
    }
    if forall b :: b in c ==> c - {b} in MissesOf(family, universe, k) {
      forall e | e in c ensures e in universe && !Hits(family, c - {e}) {
        MissesInside(family, universe, k, c, e);
      }
      InLevel(family, universe, k + 1, c);
    }
  }

  lemma InLevel(family: set<Vertical>, universe: Vertical, k: nat, c: Vertical)
    requires |c| == k && forall e :: e in c ==> e in universe && !Hits(family, c - {e})
    ensures c in LevelOf(family, universe, k)
  {
    hide Hits;
  }

  lemma LevelMember(family: set<Vertical>, universe: Vertical, k: nat, c: Vertical, b: nat)
    requires c in LevelOf(family, universe, k + 1) && b in c
    ensures c - {b} in MissesOf(family, universe, k)
  {
    hide Hits;
  }

  lemma MissesInside(family: set<Vertical>, universe: Vertical, k: nat, c: Vertical, e: nat)
    requires |c| >= 2 && e in c && forall b :: b in c ==> c - {b} in MissesOf(family, universe, k)
    ensures e in universe && !Hits(family, c - {e})
  {
    hide Hits;
    assert c - {e} in MissesOf(family, universe, k);
    var b := Another(c, e);
    assert c - {b} in MissesOf(family, universe, k) && e in c - {b};
  }

  lemma Another(c: Vertical, e: nat) returns (b: nat)
    requires |c| >= 2 && e in c
    ensures b in c && b != e
  {
    assert |c - {e}| >= 1;
    assert c - {e} != {};
    b :| b in c - {e};
  }

  // ----- the join of two sets of a level -----

  ghost predicate IsLast(x: Vertical, c: nat) {
    c in x && forall d :: d in x ==> d <= c
  }

  ghost predicate EndsBefore(p: Vertical, q: Vertical) {
    exists c, d :: IsLast(p, c) && IsLast(q, d) && c < d
  }

  const NO_INDEX: nat := 0xFFFF_FFFF_FFFF_FFFF

  // Only sets of the same size are joined, and the first one must end before the second one; the intersection
  // that is computed is discarded, so they need not share a prefix.
  method CheckJoin(p: Vertical, q: Vertical, n: nat) returns (joined: bool)
    requires p <= UpTo(n) && q <= UpTo(n) && n <= NO_INDEX
    ensures joined <==> |p| == |q| && EndsBefore(p, q)
  {
    var pLast, qLast := NO_INDEX, NO_INDEX;
    var i := 0;
    while i < n
      invariant i <= n
      invariant if pLast == NO_INDEX then forall c :: c in p ==> c >= i else pLast in p && forall c :: c in p && c < i ==> c <= pLast
      invariant if qLast == NO_INDEX then forall c :: c in q ==> c >= i else qLast in q && forall c :: c in q && c < i ==> c <= qLast
    {
      pLast := if i in p then i else pLast;
      qLast := if i in q then i else qLast;
      i := i + 1;
    }
    LastOf(p, pLast, n);
    LastOf(q, qLast, n);
    if pLast >= qLast {
      return false;
    }
    assert IsLast(p, pLast) && q != {} ==> IsLast(q, qLast);
    joined := |p| == |q|;
  }

  lemma LastOf(x: Vertical, last: nat, n: nat)
    requires x <= UpTo(n) && n <= NO_INDEX
    requires if last == NO_INDEX then forall c :: c in x ==> c >= n else last in x && forall c :: c in x && c < n ==> c <= last
    ensures last == NO_INDEX <==> x == {}
    ensures forall c :: IsLast(x, c) <==> x != {} && c == last
  {
    if last == NO_INDEX {
      forall c: nat ensures c !in x {
      }
    }
  }

  // Any set of two columns or more is the join of two of its immediate subsets.
  lemma Joins(c: Vertical, n: nat) returns (p: Vertical, q: Vertical)
    requires |c| >= 2 && c <= UpTo(n)
    ensures p + q == c && |p| == |q| == |c| - 1 && (exists b :: b in c && p == c - {b}) && (exists b :: b in c && q == c - {b})
    ensures EndsBefore(p, q)
  {
    var last := Last(c);
    p := c - {last};
    assert |p| == |c| - 1;
    var before := Last(p);
    q := c - {before};
    assert IsLast(p, before) && IsLast(q, last);
  }

  lemma {:induction false} Last(x: Vertical) returns (c: nat)
    requires x != {}
    ensures IsLast(x, c)
    decreases x
  {
    c :| c in x;
    assert forall e :: e in x ==> e == c || e in x - {c};
    if x - {c} != {} {
      var d := Last(x - {c});
      if c < d {
        c := d;
      }
    }
  }

  // ----- complemented maximal agree sets -----

  ghost function SetsWithout(agreeSets: set<Vertical>, a: nat): set<Vertical> {
    set n | n in agreeSets && a !in n
  }

  ghost function Complements(sets: set<Vertical>, r: Relation): set<Vertical> {
    set m | m in sets :: r.Columns() - m
  }

  // combinations are the complements of the maximal agree sets without the column.
  ghost predicate IsCMaxSet(s: CMaxSet, agreeSets: set<Vertical>, r: Relation) {
    exists superSets :: AreMaximal(superSets, SetsWithout(agreeSets, s.column)) && s.combinations == Complements(superSets, r)
  }

  ghost function Without(sets: set<Vertical>, a: nat): set<Vertical> {
    set s | s in sets :: s - {a}
  }

  lemma WithoutHits(family: set<Vertical>, a: nat, x: Vertical)
    requires a !in x
    ensures Hits(family, x) <==> Hits(Without(family, a), x)
  {
    forall s | s in family ensures x * s == x * (s - {a}) && s - {a} in Without(family, a) {
    }
  }

  lemma WithoutMinimal(family: set<Vertical>, a: nat, x: Vertical)
    requires a !in x
    ensures MinimalHitting(family, x) <==> MinimalHitting(Without(family, a), x)
  {
    hide Hits, Without;
    forall sub: Vertical | sub <= x ensures Hits(family, sub) <==> Hits(Without(family, a), sub) {
      WithoutHits(family, a, sub);
    }
  }

  // The transversals of the complemented maximal agree sets that avoid the column are its seen left-hand sides.
  lemma TransversalsAreSeenFds(s: CMaxSet, r: Relation, agreeSets: set<Vertical>, x: Vertical)
    requires s.column in r.Columns() && !IsConstant(r, s.column) && IsCMaxSet(s, agreeSets, r)
    requires forall n :: n in agreeSets ==> n <= r.Columns()
    ensures MinimalHitting(s.combinations, x) && s.column !in x <==> SeenFd(r, agreeSets, x, s.column)
  {
    hide MinimalHitting, DifferenceFamily, Refines, IsConstant, Without, Complements, AreMaximal, SeenFd;
    var a := s.column;
    var superSets :| AreMaximal(superSets, SetsWithout(agreeSets, a)) && s.combinations == Complements(superSets, r);
    var listed := Without(s.combinations, a);
    MaximalRefine(superSets, agreeSets, a, r);
    ListedDifferencesAreSeen(listed, r, agreeSets, a);
    if a !in x {
      WithoutMinimal(s.combinations, a, x);
    }
    if SeenFd(r, agreeSets, x, a) {
      SeenFdInside(r, agreeSets, x, a);
    }
  }

  lemma MaximalRefine(superSets: set<Vertical>, agreeSets: set<Vertical>, a: nat, r: Relation)
    requires AreMaximal(superSets, SetsWithout(agreeSets, a)) && a in r.Columns()
    requires forall n :: n in agreeSets ==> n <= r.Columns()
    ensures var all, listed := DifferenceFamily(r, agreeSets, a), Without(Complements(superSets, r), a);
      listed <= all && Refines(all, listed)
  {
    hide AreMaximal, IsMaximalIn;
    var family := SetsWithout(agreeSets, a);
    var all, listed := DifferenceFamily(r, agreeSets, a), Without(Complements(superSets, r), a);
    MaximalMeans(superSets, family);
    forall s | s in listed ensures s in all {
      var c :| c in Complements(superSets, r) && s == c - {a};
      var m :| m in superSets && c == r.Columns() - m;
      MaximalIsMember(m, family);
    }
    forall s | s in all ensures exists t :: t in listed && t <= s {
      var n :| n in agreeSets && a !in n && s == r.Columns() - n - {a};
      var m := MaximalAbove(family, n, r.Columns());
      assert r.Columns() - m in Complements(superSets, r);
      assert r.Columns() - m - {a} in listed;
    }
  }

  lemma MaximalIsMember(m: Vertical, family: set<Vertical>)
    requires IsMaximalIn(m, family)
    ensures m in family
  {
  }

  ghost function UnionOf(family: set<Vertical>): Vertical {
    set s, c | s in family && c in s :: c
  }

  ghost function Singles(x: Vertical): set<Vertical> {
    set c | c in x :: {c}
  }

  lemma SinglesOf(family: set<Vertical>, level: set<Vertical>)
    requires forall x :: x in level <==> exists s, c :: s in family && c in s && x == {c}
    ensures level == Singles(UnionOf(family))
  {
    forall x | x in Singles(UnionOf(family)) ensures x in level {
      var c :| c in UnionOf(family) && x == {c};
      var s :| s in family && c in s;
    }
  }

  // The first level: no single column can be dropped when there is a set to meet.
  lemma SinglesAreLevel(family: set<Vertical>)
    requires family != {}
    ensures Singles(UnionOf(family)) == LevelOf(family, UnionOf(family), 1)
  {
    var s :| s in family;
    assert {} * s == {};
    forall x: Vertical | |x| == 1 ensures exists c :: c in x && x == {c} {
      assert x != {};
      var c :| c in x;
      assert |x - {c}| == 0;
      assert x == x - {c} + {c};
    }
    forall c: nat ensures {c} - {c} == {} {
    }
  }

  lemma UnionContains(family: set<Vertical>, bound: Vertical)
    requires forall s :: s in family ==> s <= bound
    ensures (forall s :: s in family ==> s <= UnionOf(family)) && UnionOf(family) <= bound
  {
  }

  // The dependencies registered before level k.
  ghost function TransversalFds(family: set<Vertical>, universe: Vertical, a: nat, k: nat): set<Fd> {
    set x | x <= universe && MinimalHitting(family, x) && a !in x && |x| < k :: Fd(x, a)
  }

  // Those registered once the sets in done have been looked at, too.
  ghost function TransversalsSeen(family: set<Vertical>, a: nat, done: set<Vertical>): set<Fd> {
    set x | x in done && Hits(family, x) && a !in x :: Fd(x, a)
  }

  lemma SeenLevel(family: set<Vertical>, universe: Vertical, a: nat, k: nat)
    ensures TransversalFds(family, universe, a, k) + TransversalsSeen(family, a, LevelOf(family, universe, k))
      == TransversalFds(family, universe, a, k + 1)
  {
    hide LevelOf, MinimalHitting, Hits;
    forall x: Vertical ensures x in LevelOf(family, universe, k) && Hits(family, x) <==>
      x <= universe && |x| == k && MinimalHitting(family, x)
    {
      LevelSplits(family, universe, k, x);
    }
  }

  lemma SeenMore(family: set<Vertical>, a: nat, done: set<Vertical>, x: Vertical)
    requires x !in done
    ensures TransversalsSeen(family, a, done + {x}) == if Hits(family, x) && a !in x
      then TransversalsSeen(family, a, done) + {Fd(x, a)} else TransversalsSeen(family, a, done)
    ensures Fd(x, a) !in TransversalsSeen(family, a, done)
  {
    hide Hits;
  }

  lemma SeenNothing(family: set<Vertical>, a: nat, before: set<Fd>)
    ensures forall s: set<Vertical> :: before + TransversalsSeen(family, a, s - s) == before
  {
  }

  lemma SeenApart(family: set<Vertical>, universe: Vertical, a: nat, k: nat, done: set<Vertical>, x: Vertical)
    requires x !in done && x in LevelOf(family, universe, k)
    ensures Fd(x, a) !in TransversalFds(family, universe, a, k) + TransversalsSeen(family, a, done)
  {
    hide Hits, MinimalHitting;
  }

  // An empty level ends the search: every larger transversal would contain a set of the level.
  lemma EmptyLevel(family: set<Vertical>, universe: Vertical, a: nat, k: nat, x: Vertical)
    requires LevelOf(family, universe, k) == {} && x <= universe && MinimalHitting(family, x)
    ensures |x| < k
  {
    if |x| >= k {
      var y := SubsetWithSize(x, k);
      forall b | b in y ensures !Hits(family, y - {b}) {
        assert y - {b} < x;
      }
      InLevel(family, universe, k, y);
    }
  }

  lemma {:induction false} SubsetWithSize(x: Vertical, k: nat) returns (y: Vertical)
    requires k <= |x|
    ensures y <= x && |y| == k
    decreases |x|
  {
    y := x;
    if |x| > k {
      var b :| b in x by {
        assert x != {};
      }
      assert |x - {b}| == |x| - 1;
      y := SubsetWithSize(x - {b}, k);
    }
  }

  class Depminer {
    const relation: Relation
    const columnData: seq<PositionListIndex>
    const asGenMethod: AgreeSetsGenMethod
    const mcGenMethod: McGenMethod
    var fdCollection: seq<Fd>

    ghost predicate Fitted() {
      AreColumnPlis(columnData, relation) && relation.numColumns <= NO_INDEX
    }

    constructor (relation: Relation, columnData: seq<PositionListIndex>, asGenMethod: AgreeSetsGenMethod, mcGenMethod: McGenMethod)
      requires AreColumnPlis(columnData, relation) && relation.numColumns <= NO_INDEX
      ensures Fitted() && this.relation == relation && fdCollection == []
      ensures this.asGenMethod == asGenMethod && this.mcGenMethod == mcGenMethod
    {
      this.asGenMethod, this.mcGenMethod := asGenMethod, mcGenMethod;
      this.relation, this.columnData := relation, columnData;
      fdCollection := [];
    }

    // The maximal sets of a family, found by one pass over it.
    method MaximalSets(combinations: set<Vertical>) returns (superSets: set<Vertical>)
      requires forall s :: s in combinations ==> s <= relation.Columns()
      ensures AreMaximal(superSets, combinations)
    {
      hide AreMaximal;
      superSets := {};
      var rest := combinations;
      NoMaximal();
      assert combinations - rest == {};
      while rest != {}
        invariant rest <= combinations && AreMaximal(superSets, combinations - rest)
        decreases rest
      {
        var s :| s in rest;
        NextMaximal(superSets, combinations - rest, s, relation.Columns());
        assert combinations - (rest - {s}) == combinations - rest + {s};
        var setsDelete, toAdd := CompareWithMaximal(superSets, s);
        assert !toAdd ==> superSets - setsDelete == superSets;
        superSets := superSets - setsDelete;
        if toAdd {
          superSets := superSets + {s};
        }
        rest := rest - {s};
      }
      assert combinations - rest == combinations;
    }

    method CompareWithMaximal(superSets: set<Vertical>, s: Vertical) returns (setsDelete: set<Vertical>, toAdd: bool)
      ensures setsDelete == set m | m in superSets && m <= s
      ensures toAdd <==> !exists m :: m in superSets && s <= m
    {
      setsDelete, toAdd := {}, true;
      var others := superSets;
      while others != {}
        invariant others <= superSets
        invariant setsDelete == set m | m in superSets - others && m <= s
        invariant toAdd <==> !exists m :: m in superSets - others && s <= m
        decreases others
      {
        var superSet :| superSet in others;
        if superSet <= s {
          setsDelete := setsDelete + {superSet};
        }
        if toAdd {
          toAdd := !(s <= superSet);
        }
        assert superSets - (others - {superSet}) == superSets - others + {superSet};
        others := others - {superSet};
      }
      assert superSets - others == superSets;
    }

    method GenerateCmaxSets(agreeSets: set<Vertical>) returns (cMaxSets: seq<CMaxSet>)
      requires forall n :: n in agreeSets ==> n <= relation.Columns()
      ensures |cMaxSets| == relation.numColumns
      ensures forall c :: 0 <= c < |cMaxSets| ==> cMaxSets[c].column == c && IsCMaxSet(cMaxSets[c], agreeSets, relation)
    {
      hide AreMaximal, IsCMaxSet;
      cMaxSets := [];
      var column := 0;
      while column < relation.numColumns
        invariant column <= relation.numColumns && |cMaxSets| == column
        invariant forall c :: 0 <= c < |cMaxSets| ==> cMaxSets[c].column == c && IsCMaxSet(cMaxSets[c], agreeSets, relation)
      {
        var combinations := set n | n in agreeSets && column !in n;
        assert combinations == SetsWithout(agreeSets, column);
        var superSets := MaximalSets(combinations);
        var inverted := set m | m in superSets :: relation.Columns() - m;
        IsCMax(column, superSets, agreeSets, relation);
        cMaxSets := cMaxSets + [CMaxSet(column, inverted)];
        column := column + 1;
      }
    }

    // The set of the attribute, and the single columns of its combinations.
    method GenFirstLevel(cMaxSets: seq<CMaxSet>, attribute: nat) returns (correct: CMaxSet, level: set<Vertical>)
      requires exists i :: 0 <= i < |cMaxSets| && cMaxSets[i].column == attribute
      requires forall i, s :: 0 <= i < |cMaxSets| && s in cMaxSets[i].combinations ==> s <= relation.Columns()
      ensures correct in cMaxSets && correct.column == attribute
      ensures level == Singles(UnionOf(correct.combinations))
    {
      correct, level := CMaxSet(attribute, {}), {};
      var i := 0;
      while i < |cMaxSets|
        invariant 0 <= i <= |cMaxSets| && level == {}
        invariant forall j :: 0 <= j < i ==> cMaxSets[j].column != attribute
      {
        if cMaxSets[i].column == attribute {
          correct := cMaxSets[i];
          level := set s, c | s in correct.combinations && c in s :: {c};
          SinglesOf(correct.combinations, level);
          return;
        }
        i := i + 1;
      }
    }

    // The apriori step: joins, and keeps the joins all of whose immediate subsets are in the level.
    method GenNextLevel(prevLevel: set<Vertical>, ghost k: nat) returns (result: set<Vertical>)
      requires k >= 1 && relation.numColumns <= NO_INDEX
      requires forall x :: x in prevLevel ==> x <= relation.Columns() && |x| == k
      ensures IsNextOf(result, prevLevel, k)
    {
      hide EndsBefore, AllBelow;
      var candidates := GenCandidates(prevLevel);
      result := {};
      var rest := candidates;
      while rest != {}
        invariant rest <= candidates
        invariant forall c :: c in result <==> c in candidates - rest && AllBelow(c, prevLevel)
        decreases rest
      {
        var candidate :| candidate in rest;
        var prune := IsPruned(candidate, prevLevel);
        if !prune {
          result := result + {candidate};
        }
        rest := rest - {candidate};
      }
      NextFromCandidates(result, candidates, prevLevel, k, relation.numColumns);
    }

    // Whether dropping one of its columns takes the candidate out of the level.
    method IsPruned(candidate: Vertical, prevLevel: set<Vertical>) returns (prune: bool)
      requires candidate <= relation.Columns()
      ensures prune <==> !AllBelow(candidate, prevLevel)
    {
      var column := FindFrom(candidate, 0, relation.numColumns);
      while column < relation.numColumns
        invariant column <= relation.numColumns && (column < relation.numColumns ==> column in candidate)
        invariant forall b :: b in candidate && b < column ==> candidate - {b} in prevLevel
        decreases relation.numColumns - column
      {
        if candidate - {column} !in prevLevel {
          return true;
        }
        column := FindNext(candidate, column, relation.numColumns);
      }
      return false;
    }

    // All joins of two sets of the level.
    method GenCandidates(prevLevel: set<Vertical>) returns (candidates: set<Vertical>)
      requires relation.numColumns <= NO_INDEX && forall x :: x in prevLevel ==> x <= relation.Columns()
      ensures forall c :: c in candidates ==> c <= relation.Columns() && c != {}
      ensures forall p, q :: p in prevLevel && q in prevLevel && |p| == |q| && EndsBefore(p, q) ==> p + q in candidates
    {
      hide EndsBefore;
      candidates := {};
      var ps := prevLevel;
      while ps != {}
        invariant ps <= prevLevel && forall c :: c in candidates ==> c <= relation.Columns() && c != {}
        invariant forall p, q :: p in prevLevel - ps && q in prevLevel && |p| == |q| && EndsBefore(p, q) ==> p + q in candidates
        decreases ps
      {
        var p :| p in ps;
        var qs := prevLevel;
        while qs != {}
          invariant qs <= prevLevel && forall c :: c in candidates ==> c <= relation.Columns() && c != {}
          invariant forall p', q :: p' in prevLevel - ps && q in prevLevel && |p'| == |q| && EndsBefore(p', q) ==> p' + q in candidates
          invariant forall q :: q in prevLevel - qs && |p| == |q| && EndsBefore(p, q) ==> p + q in candidates
          decreases qs
        {
          var q :| q in qs;
          var joined := CheckJoin(p, q, relation.numColumns);
          if joined {
            EndsInside(p, q);
            candidates := candidates + {p + q};
          }
          qs := qs - {q};
        }
        ps := ps - {p};
      }
    }

    // Whether a set meets all combinations.
    method IsTransversal(l: Vertical, combinations: set<Vertical>) returns (isFd: bool)
      ensures isFd <==> Hits(combinations, l)
    {
      var rest := combinations;
      while rest != {}
        invariant rest <= combinations && forall s :: s in combinations && s !in rest ==> l * s != {}
        decreases rest
      {
        var combination :| combination in rest;
        if l * combination == {} {
          return false;
        }
        rest := rest - {combination};
      }
      isFd := true;
    }

    // Looks at the sets of one level: registers the transversals without the column and keeps the other sets. Once no
    // set is kept all have been looked at.
    method ProcessLevel(level: set<Vertical>, correct: CMaxSet, ghost universe: Vertical, ghost k: nat,
                        ghost start: seq<Fd>)
      returns (levelCopy: set<Vertical>)
      requires level == LevelOf(correct.combinations, universe, k)
      requires Appended(fdCollection, start, TransversalFds(correct.combinations, universe, correct.column, k))
      modifies this`fdCollection
      ensures Appended(fdCollection, start, TransversalFds(correct.combinations, universe, correct.column, k + 1))
      ensures levelCopy == MissesOf(correct.combinations, universe, k)
    {
      hide Appended, TransversalFds, TransversalsSeen, LevelOf, MissesOf, Hits;
      var family, column := correct.combinations, correct.column;
      ghost var before := TransversalFds(family, universe, column, k);
      levelCopy := level;
      var rest := level;
      SeenNothing(family, column, before);
      while rest != {}
        invariant rest <= level && forall l :: l in levelCopy <==> l in level && (l in rest || !Hits(family, l))
        invariant Appended(fdCollection, start, before + TransversalsSeen(family, column, level - rest))
        decreases rest
      {
        var l :| l in rest;
        SeenMore(family, column, level - rest, l);
        SeenApart(family, universe, column, k, level - rest, l);
        assert level - (rest - {l}) == level - rest + {l};
        var isFd := IsTransversal(l, family);
        if isFd {
          if column !in l {
            ghost var added := before + TransversalsSeen(family, column, level - rest);
            AppendOne(fdCollection, start, added, Fd(l, column));
            assert added + {Fd(l, column)} == before + TransversalsSeen(family, column, level - (rest - {l}));
            fdCollection := fdCollection + [Fd(l, column)];
          }
          levelCopy := levelCopy - {l};
        }
        rest := rest - {l};
        if levelCopy == {} {
          assert rest == {};
          break;
        }
      }
      assert level - rest == level;
      SeenLevel(family, universe, column, k);
      forall x ensures x in levelCopy <==> x in MissesOf(family, universe, k) {
        LevelSplits(family, universe, k, x);
      }
    }

    // The level-wise search for one column.
    method LhsForColumn(column: nat, cMaxSets: seq<CMaxSet>, ghost agreeSets: set<Vertical>)
      requires Fitted() && column < relation.numColumns && {} in agreeSets
      requires forall n :: n in agreeSets ==> n <= relation.Columns()
      requires |cMaxSets| == relation.numColumns
      requires forall c :: 0 <= c < |cMaxSets| ==> cMaxSets[c].column == c && IsCMaxSet(cMaxSets[c], agreeSets, relation)
      modifies this`fdCollection
      ensures Appended(fdCollection, old(fdCollection), SeenFdsOf(relation, agreeSets, column, relation.numColumns))
    {
      hide Appended, TransversalFds, LevelOf, MissesOf, Hits, IsCMaxSet, IsPliOf, SeenFdsOf, UnionOf, Singles;
      ghost var start := fdCollection;
      CombinationsInside(cMaxSets, agreeSets, relation);
      assert cMaxSets[column].column == column;
      var correct, level := GenFirstLevel(cMaxSets, column);
      ConstantColumn(columnData[column], relation, column);
      if columnData[column].IsConstant() {
        ConstantFd(relation, agreeSets, column, relation.numColumns);
        OneMoreFd(Fd({}, column), fdCollection);
        fdCollection := fdCollection + [Fd({}, column)];
        return;
      }
      ghost var family, universe := correct.combinations, UnionOf(correct.combinations);
      FirstLevelStarts(correct, relation, agreeSets, start);
      UnionContains(family, relation.Columns());
      ghost var k := 1;
      while level != {}
        invariant k >= 1 && level == LevelOf(family, universe, k)
        invariant Appended(fdCollection, start, TransversalFds(family, universe, column, k))
        invariant k <= relation.numColumns + 1
        decreases relation.numColumns + 1 - k
      {
        LevelIsSmall(family, universe, k, relation, level);
        var levelCopy := ProcessLevel(level, correct, universe, k, start);
        MissesHaveSize(family, universe, k, relation);
        level := GenNextLevel(levelCopy, k);
        NextIsLevel(level, family, universe, k);
        k := k + 1;
      }
      SearchEnds(correct, relation, agreeSets, k);
    }

    lemma FittedColumns()
      requires Fitted()
      ensures AreColumnPlis(columnData, relation)
    {
    }

    // The run finds exactly what the generated agree sets let appear as minimal dependencies; these are the minimal
    // dependencies if and only if the agree sets suffice.
    method ExecuteInternal() returns (ghost agreeSets: set<Vertical>)
      requires Fitted() && fdCollection == []
      modifies this`fdCollection
      ensures AgreeSetFactories.MayGenerate(relation, asGenMethod, mcGenMethod, agreeSets) && AreSomeAgreeSets(agreeSets, relation)
      ensures ListsSeenFds(fdCollection, relation, agreeSets, relation.numColumns)
      ensures ListsMinimalFds(fdCollection, relation) <==> Suffices(agreeSets, relation)
    {
      hide Appended, ListsMinimalFds, SeenFdsOf, SeenFdsBelow, AgreeSets, IsCMaxSet, Fitted, Suffices, ListsSeenFds;
      hide AgreeSetFactories.MayGenerate, AreColumnPlis;
      AgreeSetsInside(relation);
      assert AreColumnPlis(columnData, relation) by {
        FittedColumns();
      }
      var generated := AgreeSetFactories.FactoryAgreeSets(relation, columnData, asGenMethod, mcGenMethod);
      agreeSets := generated;
      var cMaxSets := GenerateCmaxSets(generated);
      NoColumnsYet(relation, agreeSets, relation.numColumns);
      var column := 0;
      while column < relation.numColumns
        invariant column <= relation.numColumns
        invariant Appended(fdCollection, [], SeenFdsBelow(relation, agreeSets, column, relation.numColumns))
      {
        ghost var middle := fdCollection;
        LhsForColumn(column, cMaxSets, agreeSets);
        MoreColumns(fdCollection, middle, relation, agreeSets, column, relation.numColumns);
        column := column + 1;
      }
      AllColumns(fdCollection, relation, agreeSets, relation.numColumns);
      ExactWhenSufficient(fdCollection, relation, agreeSets);
    }
  }

  lemma NoMaximal()
    ensures AreMaximal({}, {})
  {
  }

  lemma IsCMax(column: nat, superSets: set<Vertical>, agreeSets: set<Vertical>, r: Relation)
    requires AreMaximal(superSets, SetsWithout(agreeSets, column))
    ensures IsCMaxSet(CMaxSet(column, Complements(superSets, r)), agreeSets, r)
  {
    hide AreMaximal;
  }

  ghost predicate AllBelow(c: Vertical, level: set<Vertical>) {
    forall b :: b in c ==> c - {b} in level
  }

  lemma EndsInside(p: Vertical, q: Vertical)
    requires EndsBefore(p, q)
    ensures p + q != {}
  {
    var c, d :| IsLast(p, c) && IsLast(q, d) && c < d;
    assert c in p + q;
  }

  lemma NextFromCandidates(result: set<Vertical>, candidates: set<Vertical>, level: set<Vertical>, k: nat, n: nat)
    requires k >= 1 && forall x :: x in level ==> x <= UpTo(n) && |x| == k
    requires forall c :: c in candidates ==> c <= UpTo(n) && c != {}
    requires forall p, q :: p in level && q in level && |p| == |q| && EndsBefore(p, q) ==> p + q in candidates
    requires forall c :: c in result <==> c in candidates && AllBelow(c, level)
    ensures IsNextOf(result, level, k)
  {
    hide EndsBefore;
    forall c: Vertical ensures c in result <==> |c| == k + 1 && AllBelow(c, level) {
      if c in result {
        ResultSize(c, level, k);
      }
      if |c| == k + 1 && AllBelow(c, level) {
        IsJoined(candidates, level, k, n, c);
      }
    }
  }

  lemma IsJoined(candidates: set<Vertical>, level: set<Vertical>, k: nat, n: nat, c: Vertical)
    requires k >= 1 && |c| == k + 1 && AllBelow(c, level) && forall x :: x in level ==> x <= UpTo(n)
    requires forall p, q :: p in level && q in level && |p| == |q| && EndsBefore(p, q) ==> p + q in candidates
    ensures c in candidates
  {
    hide EndsBefore;
    forall e | e in c ensures e < n {
      var b := Another(c, e);
      assert e in c - {b};
    }
    var p, q := Joins(c, n);
  }

  lemma ResultSize(c: Vertical, level: set<Vertical>, k: nat)
    requires AllBelow(c, level) && c != {} && forall x :: x in level ==> |x| == k
    ensures |c| == k + 1
  {
    var b :| b in c;
    assert |c - {b}| == |c| - 1;
  }

  lemma CombinationsInside(cMaxSets: seq<CMaxSet>, agreeSets: set<Vertical>, r: Relation)
    requires forall c :: 0 <= c < |cMaxSets| ==> cMaxSets[c].column == c && IsCMaxSet(cMaxSets[c], agreeSets, r)
    ensures forall i, s :: 0 <= i < |cMaxSets| && s in cMaxSets[i].combinations ==> s <= r.Columns()
  {
    forall i, s | 0 <= i < |cMaxSets| && s in cMaxSets[i].combinations ensures s <= r.Columns() {
      assert IsCMaxSet(cMaxSets[i], agreeSets, r);
    }
  }

  // The empty agree set makes sure that there is a set to meet.
  lemma CMaxNonEmpty(s: CMaxSet, r: Relation, agreeSets: set<Vertical>)
    requires s.column in r.Columns() && IsCMaxSet(s, agreeSets, r)
    requires {} in agreeSets && forall n :: n in agreeSets ==> n <= r.Columns()
    ensures s.combinations != {} && (forall c :: c in s.combinations ==> c <= r.Columns())
  {
    hide AreMaximal, IsMaximalIn;
    var family := SetsWithout(agreeSets, s.column);
    var superSets :| AreMaximal(superSets, family) && s.combinations == Complements(superSets, r);
    assert {} in family;
    var m := MaximalAbove(family, {}, r.Columns());
    MaximalMeans(superSets, family);
    assert r.Columns() - m in s.combinations;
  }

  lemma FirstLevelStarts(correct: CMaxSet, r: Relation, agreeSets: set<Vertical>, start: seq<Fd>)
    requires correct.column in r.Columns() && IsCMaxSet(correct, agreeSets, r)
    requires {} in agreeSets && forall n :: n in agreeSets ==> n <= r.Columns()
    ensures var family, universe := correct.combinations, UnionOf(correct.combinations);
      && Singles(universe) == LevelOf(family, universe, 1)
      && Appended(start, start, TransversalFds(family, universe, correct.column, 1))
  {
    hide IsCMaxSet, UnionOf, LevelOf, Singles;
    var family, universe := correct.combinations, UnionOf(correct.combinations);
    CMaxNonEmpty(correct, r, agreeSets);
    SinglesAreLevel(family);
    forall x: Vertical | MinimalHitting(family, x) ensures |x| >= 1 {
      MinimalHittingOfNothing(family, x);
      assert |x| == 0 ==> x == {};
    }
    assert TransversalFds(family, universe, correct.column, 1) == {};
    AppendNothing(start);
  }

  lemma LevelIsSmall(family: set<Vertical>, universe: Vertical, k: nat, r: Relation, level: set<Vertical>)
    requires level == LevelOf(family, universe, k) && level != {} && universe <= r.Columns()
    ensures k <= r.numColumns
  {
    var x :| x in level;
    SubsetSize(x, r.Columns());
  }

  lemma MissesHaveSize(family: set<Vertical>, universe: Vertical, k: nat, r: Relation)
    requires universe <= r.Columns()
    ensures forall x :: x in MissesOf(family, universe, k) ==> x <= r.Columns() && |x| == k
  {
  }

  // The search has registered every seen left-hand side of the column.
  lemma SearchEnds(correct: CMaxSet, r: Relation, agreeSets: set<Vertical>, k: nat)
    requires correct.column in r.Columns() && !IsConstant(r, correct.column)
    requires IsCMaxSet(correct, agreeSets, r) && {} in agreeSets && forall n :: n in agreeSets ==> n <= r.Columns()
    requires LevelOf(correct.combinations, UnionOf(correct.combinations), k) == {}
    ensures TransversalFds(correct.combinations, UnionOf(correct.combinations), correct.column, k)
      == SeenFdsOf(r, agreeSets, correct.column, r.numColumns)
  {
    hide IsCMaxSet, LevelOf, MinimalHitting, SeenFd, IsConstant, UnionOf;
    var family, universe := correct.combinations, UnionOf(correct.combinations);
    CMaxNonEmpty(correct, r, agreeSets);
    UnionContains(family, r.Columns());
    forall x: Vertical
      ensures x <= universe && MinimalHitting(family, x) && correct.column !in x && |x| < k <==>
        x <= r.Columns() && SeenFd(r, agreeSets, x, correct.column) && |x| <= r.numColumns
    {
      TransversalsAreSeenFds(correct, r, agreeSets, x);
      if MinimalHitting(family, x) {
        HittingInsideUnion(family, universe, x);
        EmptyLevel(family, universe, correct.column, k, x);
        SubsetSize(x, r.Columns());
      }
    }
  }
}
