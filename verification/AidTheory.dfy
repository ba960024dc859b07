// AID by value: what inverting a sample of the agree sets promises, and renumbering of columns.
module AidTheory {
  import opened Relations
  import opened FdLists
  import opened Transversals

  ghost function NoPruning(): Vertical -> bool {
    x => false
  }

  ghost function Constants(r: Relation): Vertical {
    set a | a in r.Columns() && |r.rows| > 0 && IsConstant(r, a)
  }

  // The columns that a left-hand side of a may use.
  ghost function Usable(r: Relation, a: nat): Vertical {
    r.Columns() - Constants(r) - {a}
  }

  // What a left-hand side of a has to meet: the usable columns themselves, so that it is not empty, and the
  // usable columns outside each sampled agree set without a.
  ghost function SampledFamily(negCover: set<Vertical>, usable: Vertical, a: nat): set<Vertical> {
    {usable} + set n | n in negCover && a !in n :: usable - n
  }

  // The contract of the inversion, for any sample.
  ghost predicate InvertsSample(fds: seq<Fd>, r: Relation, negCover: set<Vertical>) {
    && NoDuplicates(fds)
    && forall x: Vertical, a: nat :: Fd(x, a) in fds <==> IsInverted(r, negCover, x, a)
  }

  ghost predicate IsInverted(r: Relation, negCover: set<Vertical>, x: Vertical, a: nat) {
    a in r.Columns() && if a in Constants(r) then x == {} else MinimalHitting(SampledFamily(negCover, Usable(r, a), a), x)
  }

  // Dropping constant columns from a left-hand side loses nothing.
  lemma {:induction false} WithoutConstants(r: Relation, x: Vertical, a: nat, constants: Vertical)
    requires constants <= Constants(r) && Holds(r, x, a)
    ensures Holds(r, x - constants, a)
    decreases constants
  {
    if constants == {} {
      assert x - constants == x;
    } else {
      var c :| c in constants;
      WithoutConstants(r, x, a, constants - {c});
      var y := x - (constants - {c});
      assert x - constants == y - {c};
      HoldsMonotone(r, {}, y - {c}, c);
      if c in y {
        assert y - {c} + {c} == y;
        HoldsThrough(r, y - {c}, c, a);
      } else {
        assert y - {c} == y;
      }
    }
  }

  // A left-hand side that determines a meets everything it has to, whatever has been sampled.
  lemma DeterminantHits(r: Relation, negCover: set<Vertical>, x: Vertical, a: nat)
    requires |r.rows| > 0 && negCover <= AgreeSets(r) && a in r.Columns() && a !in Constants(r)
    requires x <= r.Columns() - {a} && Holds(r, x, a)
    ensures Hits(SampledFamily(negCover, Usable(r, a), a), x - Constants(r))
  {
    var usable, y := Usable(r, a), x - Constants(r);
    WithoutConstants(r, x, a, Constants(r));
    forall s | s in SampledFamily(negCover, usable, a) ensures y * s != {} {
      if s == usable {
        assert y != {};
        var c :| c in y;
        assert c in y * s;
      } else {
        var n :| n in negCover && a !in n && s == usable - n;
        var c := OutsideAgreeSet(r, y, a, n);
        assert c in y * s;
      }
    }
  }

  lemma OutsideAgreeSet(r: Relation, x: Vertical, a: nat, n: Vertical) returns (c: nat)
    requires Holds(r, x, a) && n in AgreeSets(r) && a !in n
    ensures c in x && c !in n
  {
    var p :| p in RowPairs(r) && n == r.AgreeSet(p.0, p.1);
    assert !r.Agree(x, p.0, p.1);
    c :| c in x && c !in n;
  }

  // Wherever the sampling stopped: every dependency that holds has a registered one inside it.
  lemma CoversEveryFd(fds: seq<Fd>, r: Relation, negCover: set<Vertical>, x: Vertical, a: nat) returns (y: Vertical)
    requires |r.rows| > 0 && negCover <= AgreeSets(r) && InvertsSample(fds, r, negCover)
    requires a in r.Columns() && x <= r.Columns() - {a} && Holds(r, x, a)
    ensures y <= x && Fd(y, a) in fds
  {
    if a in Constants(r) {
      y := {};
      assert IsInverted(r, negCover, y, a);
    } else {
      DeterminantHits(r, negCover, x, a);
      y := MinimalHittingInside(SampledFamily(negCover, Usable(r, a), a), x - Constants(r));
      assert IsInverted(r, negCover, y, a);
    }
  }

  ghost predicate CoversAll(fds: seq<Fd>, r: Relation) {
    forall x: Vertical, a: nat :: a in r.Columns() && x <= r.Columns() - {a} && Holds(r, x, a) ==>
      exists y: Vertical :: y <= x && Fd(y, a) in fds
  }

  // So every dependency that holds is covered, unless there are columns but no rows.
  lemma CoversUnlessNoRows(fds: seq<Fd>, r: Relation, negCover: set<Vertical>)
    requires negCover <= AgreeSets(r) && InvertsSample(fds, r, negCover)
    ensures CoversAll(fds, r) <==> |r.rows| > 0 || r.numColumns == 0
  {
    hide InvertsSample;
    if |r.rows| > 0 {
      forall x: Vertical, a: nat | a in r.Columns() && x <= r.Columns() - {a} && Holds(r, x, a)
        ensures exists y: Vertical :: y <= x && Fd(y, a) in fds
      {
        var y := CoversEveryFd(fds, r, negCover, x, a);
      }
    } else if r.numColumns > 0 {
      NoRowsNotCovered(fds, r, negCover, 0);
    }
  }

  // An input that shows it: without rows every column is determined by nothing, but no such dependency is registered.
  lemma NoRowsNotCovered(fds: seq<Fd>, r: Relation, negCover: set<Vertical>, a: nat)
    requires |r.rows| == 0 && a in r.Columns() && InvertsSample(fds, r, negCover)
    ensures Holds(r, {}, a) && forall y: Vertical :: y <= {} ==> Fd(y, a) !in fds
  {
    EmptySetMisses(r, negCover, a);
    assert !IsInverted(r, negCover, {}, a);
  }

  // Left-hand sides registered for the same column do not lie inside each other.
  lemma RegisteredApart(fds: seq<Fd>, r: Relation, negCover: set<Vertical>, x: Vertical, y: Vertical, a: nat)
    requires InvertsSample(fds, r, negCover) && Fd(x, a) in fds && Fd(y, a) in fds
    ensures !(x < y)
  {
    assert IsInverted(r, negCover, x, a) && IsInverted(r, negCover, y, a);
  }

  lemma RegisteredInside(fds: seq<Fd>, r: Relation, negCover: set<Vertical>, x: Vertical, a: nat)
    requires InvertsSample(fds, r, negCover) && Fd(x, a) in fds
    ensures a in r.Columns() && x <= r.Columns() - {a}
  {
    assert IsInverted(r, negCover, x, a);
    if a !in Constants(r) {
      HittingInsideUnion(SampledFamily(negCover, Usable(r, a), a), Usable(r, a), x);
    }
  }

  // The result is exactly the minimal dependencies when, and only when, there are rows and everything registered holds.
  lemma ExactWhenAllHold(fds: seq<Fd>, r: Relation, negCover: set<Vertical>)
    requires negCover <= AgreeSets(r) && InvertsSample(fds, r, negCover) && r.numColumns > 0
    ensures ListsMinimalFds(fds, r) <==> |r.rows| > 0 && forall d :: d in fds ==> Holds(r, d.lhs, d.rhs)
  {
    if |r.rows| == 0 {
      assert MinimalFd(r, {}, 0);
      EmptySetMisses(r, negCover, 0);
      assert !IsInverted(r, negCover, {}, 0);
    } else if forall d :: d in fds ==> Holds(r, d.lhs, d.rhs) {
      AllHold(fds, r, negCover);
    } else {
      var d :| d in fds && !Holds(r, d.lhs, d.rhs);
      assert d == Fd(d.lhs, d.rhs) && !MinimalFd(r, d.lhs, d.rhs);
    }
  }

  // Every agree set with more than constant columns lies, for each column that it lacks, inside a sampled one that lacks
  // the column: the sample has the maximal ones.
  ghost predicate SampleSuffices(r: Relation, negCover: set<Vertical>) {
    forall n, a :: n in AgreeSets(r) && a in r.Columns() && a !in n && !(n <= Constants(r)) ==> SampledAround(negCover, n, a)
  }

  ghost predicate SampledAround(negCover: set<Vertical>, n: Vertical, a: nat) {
    exists m :: m in negCover && a !in m && n <= m
  }

  // The result is exactly the minimal dependencies when, and only when, there are rows and the sample suffices.
  lemma ExactWhenSampled(fds: seq<Fd>, r: Relation, negCover: set<Vertical>)
    requires negCover <= AgreeSets(r) && InvertsSample(fds, r, negCover) && r.numColumns > 0
    ensures ListsMinimalFds(fds, r) <==> |r.rows| > 0 && SampleSuffices(r, negCover)
  {
    hide InvertsSample, ListsMinimalFds, Holds, AgreeSets, Constants, SampledAround;
    ExactWhenAllHold(fds, r, negCover);
    if |r.rows| > 0 && SampleSuffices(r, negCover) {
      forall d | d in fds ensures Holds(r, d.lhs, d.rhs) {
        assert d == Fd(d.lhs, d.rhs);
        RegisteredHolds(fds, r, negCover, d.lhs, d.rhs);
      }
    }
    if ListsMinimalFds(fds, r) {
      forall n, a | n in AgreeSets(r) && a in r.Columns() && a !in n && !(n <= Constants(r)) ensures SampledAround(negCover, n, a) {
        if !SampledAround(negCover, n, a) {
          var y := MissedAgreeSet(fds, r, negCover, n, a);
          assert false;
        }
      }
    }
  }

  lemma ConstantsInAgreeSet(r: Relation, n: Vertical)
    requires n in AgreeSets(r)
    ensures Constants(r) <= n <= r.Columns()
  {
    var p :| p in RowPairs(r) && n == r.AgreeSet(p.0, p.1);
    forall c | c in Constants(r) ensures c in n {
      assert r.Agree({}, p.0, p.1);
    }
  }

  lemma RegisteredHolds(fds: seq<Fd>, r: Relation, negCover: set<Vertical>, x: Vertical, a: nat)
    requires |r.rows| > 0 && negCover <= AgreeSets(r) && InvertsSample(fds, r, negCover) && Fd(x, a) in fds
    requires SampleSuffices(r, negCover)
    ensures Holds(r, x, a)
  {
    assert IsInverted(r, negCover, x, a);
    if a !in Constants(r) {
      var usable := Usable(r, a);
      var family := SampledFamily(negCover, usable, a);
      HittingInsideUnion(family, usable, x);
      forall i: nat, j: nat | r.IsRow(i) && r.IsRow(j) && r.Agree(x, i, j) ensures a in r.AgreeSet(i, j) {
        if i != j {
          assert (i, j) in RowPairs(r);
          InsideNoAgreeSet(r, negCover, x, a, r.AgreeSet(i, j));
        }
      }
    }
  }

  // What meets the whole sampled family lies inside no agree set without a.
  lemma InsideNoAgreeSet(r: Relation, negCover: set<Vertical>, x: Vertical, a: nat, n: Vertical)
    requires SampleSuffices(r, negCover) && n in AgreeSets(r) && x <= n && a in r.Columns() && x <= Usable(r, a)
    requires Hits(SampledFamily(negCover, Usable(r, a), a), x)
    ensures a in n
  {
    hide AgreeSets, Constants;
    var usable := Usable(r, a);
    var m := usable;
    if a !in n && !(n <= Constants(r)) {
      assert SampledAround(negCover, n, a);
      m :| m in negCover && a !in m && n <= m;
    }
    var s := if n <= Constants(r) then usable else usable - m;
    assert a !in n ==> s in SampledFamily(negCover, usable, a) && x * s == {};
  }

  // An agree set that the sample has nothing around gives a registered dependency that it violates.
  lemma MissedAgreeSet(fds: seq<Fd>, r: Relation, negCover: set<Vertical>, n: Vertical, a: nat) returns (y: Vertical)
    requires |r.rows| > 0 && negCover <= AgreeSets(r) && InvertsSample(fds, r, negCover)
    requires n in AgreeSets(r) && a in r.Columns() && a !in n && !(n <= Constants(r)) && !SampledAround(negCover, n, a)
    ensures Fd(y, a) in fds && !Holds(r, y, a)
  {
    hide IsConstant;
    ConstantsInAgreeSet(r, n);
    var usable := Usable(r, a);
    var family, x := SampledFamily(negCover, usable, a), n * usable;
    forall s | s in family ensures x * s != {} {
      if s == usable {
        var c :| c in n && c !in Constants(r);
        assert c in x * s;
      } else {
        var m :| m in negCover && a !in m && s == usable - m;
        ConstantsInAgreeSet(r, m);
        var c :| c in n && c !in m;
        assert c in x * s;
      }
    }
    y := MinimalHittingInside(family, x);
    assert IsInverted(r, negCover, y, a);
    var p :| p in RowPairs(r) && n == r.AgreeSet(p.0, p.1);
    assert r.Agree(y, p.0, p.1);
  }

  lemma EmptySetMisses(r: Relation, negCover: set<Vertical>, a: nat)
    ensures !MinimalHitting(SampledFamily(negCover, Usable(r, a), a), {})
  {
    assert {} * Usable(r, a) == {};
    assert Usable(r, a) in SampledFamily(negCover, Usable(r, a), a);
  }

  lemma AllHold(fds: seq<Fd>, r: Relation, negCover: set<Vertical>)
    requires negCover <= AgreeSets(r) && InvertsSample(fds, r, negCover) && |r.rows| > 0
    requires forall d :: d in fds ==> Holds(r, d.lhs, d.rhs)
    ensures ListsMinimalFds(fds, r)
  {
    hide InvertsSample, Holds;
    DistinctFds(fds, r, negCover);
    forall x: Vertical, a: nat ensures Fd(x, a) in fds <==> MinimalFd(r, x, a) {
      if Fd(x, a) in fds {
        RegisteredInside(fds, r, negCover, x, a);
        assert Holds(r, Fd(x, a).lhs, Fd(x, a).rhs);
        var z := MinimalInside(r, x, a);
        var y := CoversEveryFd(fds, r, negCover, z, a);
        RegisteredApart(fds, r, negCover, y, x, a);
        assert z == x;
      }
      if MinimalFd(r, x, a) {
        var y := CoversEveryFd(fds, r, negCover, x, a);
        assert Holds(r, Fd(y, a).lhs, Fd(y, a).rhs);
        assert y == x;
      }
    }
  }

  lemma DistinctFds(fds: seq<Fd>, r: Relation, negCover: set<Vertical>)
    requires InvertsSample(fds, r, negCover)
    ensures NoDuplicates(fds)
  {
  }

  // ----- renumbering -----

  ghost predicate IsOrder(order: seq<nat>, n: nat) {
    && |order| == n && NoDuplicates(order)
    && forall c: nat :: c in order <==> c < n
  }

  ghost predicate AreInverse(order: seq<nat>, inverse: seq<nat>, n: nat) {
    && IsOrder(order, n) && |inverse| == n
    && (forall i :: 0 <= i < n ==> order[i] < n && inverse[order[i]] == i)
  }

  lemma InverseBack(order: seq<nat>, inverse: seq<nat>, n: nat, c: nat)
    requires AreInverse(order, inverse, n) && c < n
    ensures inverse[c] < n && order[inverse[c]] == c
  {
    assert c in order;
    var i :| 0 <= i < n && order[i] == c;
  }

  ghost function Renamed(x: Vertical, order: seq<nat>): Vertical {
    set b | b in x && b < |order| :: order[b]
  }

  ghost function RenamedAll(family: set<Vertical>, order: seq<nat>): set<Vertical> {
    set s | s in family :: Renamed(s, order)
  }

  // Renaming there and back.
  lemma RenamedBack(x: Vertical, order: seq<nat>, inverse: seq<nat>, n: nat)
    requires AreInverse(order, inverse, n) && x <= UpTo(n)
    ensures Renamed(Renamed(x, inverse), order) == x && Renamed(x, inverse) <= UpTo(n)
    ensures Renamed(Renamed(x, order), inverse) == x && Renamed(x, order) <= UpTo(n)
  {
    forall c | c in x ensures inverse[c] < n && order[inverse[c]] == c && order[c] < n && inverse[order[c]] == c {
      InverseBack(order, inverse, n, c);
    }
    forall c ensures c in Renamed(Renamed(x, inverse), order) <==> c in x {
      if c in x {
        assert inverse[c] in Renamed(x, inverse);
      }
    }
    forall c ensures c in Renamed(Renamed(x, order), inverse) <==> c in x {
      if c in x {
        assert order[c] in Renamed(x, order);
      }
    }
  }

  lemma RenamedMember(x: Vertical, order: seq<nat>, inverse: seq<nat>, n: nat, c: nat)
    requires AreInverse(order, inverse, n) && x <= UpTo(n) && c < n
    ensures inverse[c] in Renamed(x, inverse) <==> c in x
  {
    if inverse[c] in Renamed(x, inverse) {
      var b :| b in x && inverse[c] == inverse[b];
      InverseBack(order, inverse, n, b);
      InverseBack(order, inverse, n, c);
    }
  }

  lemma RenamedMeets(x: Vertical, s: Vertical, order: seq<nat>, inverse: seq<nat>, n: nat)
    requires AreInverse(order, inverse, n) && x <= UpTo(n) && s <= UpTo(n)
    ensures Renamed(x, inverse) * Renamed(s, inverse) != {} <==> x * s != {}
  {
    if c :| c in x * s {
      assert inverse[c] in Renamed(x, inverse) * Renamed(s, inverse);
    }
    if d :| d in Renamed(x, inverse) * Renamed(s, inverse) {
      var c :| c in x && d == inverse[c];
      RenamedMember(s, order, inverse, n, c);
      assert c in x * s;
    }
  }

  lemma RenamedHits(family: set<Vertical>, x: Vertical, order: seq<nat>, inverse: seq<nat>, n: nat)
    requires AreInverse(order, inverse, n) && x <= UpTo(n) && forall s :: s in family ==> s <= UpTo(n)
    ensures Hits(RenamedAll(family, inverse), Renamed(x, inverse)) <==> Hits(family, x)
  {
    hide AreInverse, Renamed;
    forall s | s in family ensures Renamed(x, inverse) * Renamed(s, inverse) != {} <==> x * s != {} {
      RenamedMeets(x, s, order, inverse, n);
    }
    forall s | s in family ensures Renamed(s, inverse) in RenamedAll(family, inverse) {
    }
  }

  lemma RenamedSmaller(x: Vertical, y: Vertical, order: seq<nat>, inverse: seq<nat>, n: nat)
    requires AreInverse(order, inverse, n) && x < y && y <= UpTo(n)
    ensures Renamed(x, inverse) < Renamed(y, inverse)
  {
    var c :| c in y && c !in x;
    RenamedMember(x, order, inverse, n, c);
    RenamedMember(y, order, inverse, n, c);
    assert Renamed(x, inverse) <= Renamed(y, inverse);
  }

  lemma RenamedMinimal(family: set<Vertical>, x: Vertical, order: seq<nat>, inverse: seq<nat>, n: nat)
    requires AreInverse(order, inverse, n) && x <= UpTo(n) && forall s :: s in family ==> s <= UpTo(n)
    ensures MinimalHitting(RenamedAll(family, inverse), Renamed(x, inverse)) <==> MinimalHitting(family, x)
  {
    hide AreInverse, Hits, RenamedAll, Renamed;
    var family', x' := RenamedAll(family, inverse), Renamed(x, inverse);
    RenamedHits(family, x, order, inverse, n);
    RenamedBack(x, order, inverse, n);
    if MinimalHitting(family, x) {
      forall sub': Vertical | sub' < x' ensures !Hits(family', sub') {
        BackSmaller(sub', x, order, inverse, n);
        RenamedHits(family, Renamed(sub', order), order, inverse, n);
      }
    }
    if MinimalHitting(family', x') {
      forall sub: Vertical | sub < x ensures !Hits(family, sub) {
        RenamedSmaller(sub, x, order, inverse, n);
        RenamedHits(family, sub, order, inverse, n);
      }
    }
  }

  // A proper subset of a renamed set is a renamed proper subset.
  lemma BackSmaller(sub: Vertical, x: Vertical, order: seq<nat>, inverse: seq<nat>, n: nat)
    requires AreInverse(order, inverse, n) && x <= UpTo(n) && sub < Renamed(x, inverse)
    ensures Renamed(sub, order) < x && Renamed(Renamed(sub, order), inverse) == sub
  {
    hide AreInverse, Renamed;
    RenamedBack(x, order, inverse, n);
    RenamedBack(sub, order, inverse, n);
    forall c | c in Renamed(sub, order) ensures c in x {
      BackMember(sub, x, order, inverse, n, c);
    }
    assert Renamed(sub, order) != x;
  }

  lemma BackMember(sub: Vertical, x: Vertical, order: seq<nat>, inverse: seq<nat>, n: nat, c: nat)
    requires AreInverse(order, inverse, n) && x <= UpTo(n) && sub < Renamed(x, inverse) && c in Renamed(sub, order)
    ensures c in x
  {
    var d :| d in sub && d < |order| && c == order[d];
    var e :| e in x && e < |inverse| && d == inverse[e];
    InverseBack(order, inverse, n, e);
  }

  // ----- the inversion of one column, in renumbered columns -----

  // The single columns are the minimal hitting sets of one set.
  lemma SinglesCover(usable: Vertical, singles: set<Vertical>)
    requires forall x :: x in singles <==> exists c :: c in usable && x == {c}
    ensures IsCover(singles, {usable}, NoPruning())
  {
    forall x: Vertical ensures x in singles <==> MinimalHitting({usable}, x) {
      if MinimalHitting({usable}, x) {
        assert x * usable != {};
        var c :| c in x * usable;
        assert c in {c} * usable && {c} <= x;
        assert !({c} < x);
        assert {c} == x;
      }
      if c :| c in usable && x == {c} {
        assert c in x * usable;
        forall sub: Vertical | sub < x ensures !Hits({usable}, sub) {
          assert c in sub ==> x <= sub;
          forall e ensures e !in sub {
            assert e in sub ==> e in x && e == c;
          }
          assert usable in {usable} && sub * usable == {};
        }
      }
    }
  }

  // The sets to be met after the first i members of the list.
  ghost function FamilySoFar(negCover: seq<Vertical>, i: nat, usable: Vertical, a: nat): set<Vertical>
    requires i <= |negCover|
  {
    {usable} + set n | n in negCover[..i] && a !in n :: usable - n
  }

  lemma FamilyStep(negCover: seq<Vertical>, i: nat, usable: Vertical, a: nat)
    requires i < |negCover|
    ensures FamilySoFar(negCover, i + 1, usable, a) ==
      if a in negCover[i] then FamilySoFar(negCover, i, usable, a) else FamilySoFar(negCover, i, usable, a) + {usable - negCover[i]}
  {
    assert negCover[..i + 1] == negCover[..i] + [negCover[i]];
  }

  lemma FamilyStart(negCover: seq<Vertical>, usable: Vertical, a: nat)
    ensures FamilySoFar(negCover, 0, usable, a) == {usable}
  {
  }

  // The members of a cover that lie inside a sampled set are those that miss its complement.
  lemma InsideMeansMissing(cover: set<Vertical>, family: set<Vertical>, usable: Vertical, n: Vertical)
    requires IsCover(cover, family, NoPruning()) && forall s :: s in family ==> s <= usable
    ensures forall x :: x in cover ==> x <= usable && (x <= n <==> x * (usable - n) == {})
  {
    forall x | x in cover ensures x <= usable && (x <= n <==> x * (usable - n) == {}) {
      HittingInsideUnion(family, usable, x);
      if x * (usable - n) == {} {
        forall c | c in x ensures c in n {
          assert c !in x * (usable - n);
        }
      }
    }
  }

  ghost predicate IsRenamedList(list': seq<Vertical>, list: seq<Vertical>, inverse: seq<nat>) {
    |list'| == |list| && forall i :: 0 <= i < |list| ==> list'[i] == Renamed(list[i], inverse)
  }

  lemma RenamedWithout(x: Vertical, y: Vertical, order: seq<nat>, inverse: seq<nat>, n: nat)
    requires AreInverse(order, inverse, n) && x <= UpTo(n) && y <= UpTo(n)
    ensures Renamed(x - y, inverse) == Renamed(x, inverse) - Renamed(y, inverse)
  {
    forall d ensures d in Renamed(x - y, inverse) <==> d in Renamed(x, inverse) - Renamed(y, inverse) {
      if d in Renamed(x, inverse) {
        var c :| c in x && d == inverse[c];
        RenamedMember(y, order, inverse, n, c);
        RenamedMember(x - y, order, inverse, n, c);
      }
    }
  }

  lemma RenamedSingle(c: nat, inverse: seq<nat>)
    requires c < |inverse|
    ensures Renamed({c}, inverse) == {inverse[c]}
  {
  }

  // The renumbered family of one column is the family of the column it stands for.
  lemma RenamedFamily(negCover: set<Vertical>, list: seq<Vertical>, list': seq<Vertical>, usable: Vertical, usable': Vertical,
                      a: nat, order: seq<nat>, inverse: seq<nat>, n: nat)
    requires AreInverse(order, inverse, n) && a < n && usable <= UpTo(n) && usable' == Renamed(usable, inverse)
    requires (forall s :: s in list <==> s in negCover) && forall s :: s in negCover ==> s <= UpTo(n)
    requires IsRenamedList(list', list, inverse) && a < |inverse|
    ensures FamilySoFar(list', |list'|, usable', inverse[a]) == RenamedAll(SampledFamily(negCover, usable, a), inverse)
  {
    hide AreInverse, Renamed;
    InverseInRange(order, inverse, n, a);
    var left, right := FamilySoFar(list', |list'|, usable', inverse[a]), RenamedAll(SampledFamily(negCover, usable, a), inverse);
    assert list'[..|list'|] == list';
    forall i | 0 <= i < |list|
      ensures (inverse[a] in list'[i] <==> a in list[i]) && usable' - list'[i] == Renamed(usable - list[i], inverse)
    {
      assert list[i] in list;
      RenamedMember(list[i], order, inverse, n, a);
      RenamedWithout(usable, list[i], order, inverse, n);
    }
    forall s | s in left ensures s in right {
      if s != usable' {
        var n' :| n' in list' && inverse[a] !in n' && s == usable' - n';
        var i :| 0 <= i < |list'| && list'[i] == n';
        assert list[i] in list && usable - list[i] in SampledFamily(negCover, usable, a);
      }
    }
    forall s | s in right ensures s in left {
      var t :| t in SampledFamily(negCover, usable, a) && s == Renamed(t, inverse);
      if t != usable {
        var m :| m in negCover && a !in m && t == usable - m;
        var i :| 0 <= i < |list| && list[i] == m;
        assert list'[i] in list';
      }
    }
  }

  lemma InverseForth(order: seq<nat>, inverse: seq<nat>, n: nat, d: nat)
    requires AreInverse(order, inverse, n) && d < n
    ensures |order| == |inverse| == n && order[d] < n && inverse[order[d]] == d
  {
  }

  lemma InverseInRange(order: seq<nat>, inverse: seq<nat>, n: nat, a: nat)
    requires AreInverse(order, inverse, n) && a < n
    ensures |inverse| == n && inverse[a] < n && |order| == n
  {
    InverseBack(order, inverse, n, a);
  }

  // In the new numbers the usable columns are the columns that are neither constant nor the right-hand side.
  lemma RenamedUsable(r: Relation, rhs: nat, order: seq<nat>, inverse: seq<nat>)
    requires AreInverse(order, inverse, r.numColumns) && rhs < r.numColumns && order[rhs] < r.numColumns
    ensures Renamed(Usable(r, order[rhs]), inverse) == UpTo(r.numColumns) - Renamed(Constants(r), inverse) - {rhs}
    ensures inverse[order[rhs]] == rhs
    ensures rhs in Renamed(Constants(r), inverse) <==> order[rhs] in Constants(r)
  {
    var n := r.numColumns;
    var all := UpTo(n);
    RenamedAllColumns(order, inverse, n);
    RenamedWithout(all, Constants(r), order, inverse, n);
    RenamedSingle(order[rhs], inverse);
    RenamedWithout(all - Constants(r), {order[rhs]}, order, inverse, n);
    RenamedMember(Constants(r), order, inverse, n, order[rhs]);
  }

  lemma RenamedAllColumns(order: seq<nat>, inverse: seq<nat>, n: nat)
    requires AreInverse(order, inverse, n)
    ensures Renamed(UpTo(n), inverse) == UpTo(n)
  {
    hide AreInverse, Renamed;
    RenamedBack(UpTo(n), order, inverse, n);
    forall d | d in UpTo(n) ensures d in Renamed(UpTo(n), inverse) {
      InverseForth(order, inverse, n, d);
      RenamedMember(UpTo(n), order, inverse, n, order[d]);
    }
  }

  lemma FamilyInside(negCover: seq<Vertical>, i: nat, usable: Vertical, a: nat)
    requires i <= |negCover|
    ensures forall s :: s in FamilySoFar(negCover, i, usable, a) ==> s <= usable
  {
  }

  // Renaming the cover of the renumbered family back gives the cover of the column itself.
  lemma RenamedCoverBack(family: set<Vertical>, cover: set<Vertical>, usable: Vertical, order: seq<nat>, inverse: seq<nat>, n: nat)
    requires AreInverse(order, inverse, n) && usable <= UpTo(n) && forall s :: s in family ==> s <= usable
    requires IsCover(cover, RenamedAll(family, inverse), NoPruning())
    ensures forall x :: x in cover ==> x <= UpTo(n)
    ensures forall x :: x in RenamedAll(cover, order) <==> MinimalHitting(family, x)
    ensures forall x, y :: x in cover && y in cover && Renamed(x, order) == Renamed(y, order) ==> x == y
  {
    hide AreInverse, Renamed, MinimalHitting;
    var family' := RenamedAll(family, inverse);
    forall s' | s' in family' ensures s' <= UpTo(n) {
      var s :| s in family && s' == Renamed(s, inverse);
      RenamedBack(s, order, inverse, n);
    }
    forall x' | x' in cover ensures x' <= UpTo(n) {
      HittingInsideUnion(family', UpTo(n), x');
    }
    forall x' | x' in cover ensures Renamed(Renamed(x', order), inverse) == x' && MinimalHitting(family, Renamed(x', order)) {
      RenamedBack(x', order, inverse, n);
      RenamedMinimal(family, Renamed(x', order), order, inverse, n);
    }
    forall x | MinimalHitting(family, x) ensures x in RenamedAll(cover, order) {
      HittingInsideUnion(family, UpTo(n), x);
      RenamedMinimal(family, x, order, inverse, n);
      RenamedBack(x, order, inverse, n);
      assert Renamed(x, inverse) in cover;
    }
  }

  // ----- the dependencies that the inversion registers -----

  ghost function InvertedFds(r: Relation, negCover: set<Vertical>, columns: Vertical): set<Fd> {
    set x, a | a in columns && x <= r.Columns() && IsInverted(r, negCover, x, a) :: Fd(x, a)
  }

  lemma MoreInverted(fds: seq<Fd>, middle: seq<Fd>, r: Relation, negCover: set<Vertical>, columns: Vertical, a: nat)
    requires a !in columns && Appended(middle, [], InvertedFds(r, negCover, columns))
    requires Appended(fds, middle, InvertedFds(r, negCover, {a}))
    ensures Appended(fds, [], InvertedFds(r, negCover, columns + {a}))
  {
    hide IsInverted, Appended;
    var first, second := InvertedFds(r, negCover, columns), InvertedFds(r, negCover, {a});
    assert InvertedFds(r, negCover, columns + {a}) == first + second;
    AppendMore(fds, middle, [], first, second);
  }

  lemma NoneInverted(r: Relation, negCover: set<Vertical>)
    ensures Appended([], [], InvertedFds(r, negCover, {}))
  {
  }

  lemma InvertedConstant(r: Relation, negCover: set<Vertical>, a: nat)
    requires a in Constants(r)
    ensures InvertedFds(r, negCover, {a}) == {Fd({}, a)}
  {
  }

  lemma InvertedUsable(r: Relation, negCover: set<Vertical>, a: nat)
    requires a in r.Columns() && a !in Constants(r)
    ensures forall x :: Fd(x, a) in InvertedFds(r, negCover, {a}) <==>
      MinimalHitting(SampledFamily(negCover, Usable(r, a), a), x)
    ensures forall d :: d in InvertedFds(r, negCover, {a}) ==> d.rhs == a && d.lhs <= r.Columns()
  {
    forall x | MinimalHitting(SampledFamily(negCover, Usable(r, a), a), x) ensures x <= r.Columns() {
      HittingInsideUnion(SampledFamily(negCover, Usable(r, a), a), Usable(r, a), x);
    }
  }

  lemma AllInverted(fds: seq<Fd>, r: Relation, negCover: set<Vertical>)
    requires Appended(fds, [], InvertedFds(r, negCover, r.Columns()))
    ensures InvertsSample(fds, r, negCover)
  {
    assert fds == fds[0..];
    forall x: Vertical, a: nat ensures Fd(x, a) in fds <==> IsInverted(r, negCover, x, a) {
      if IsInverted(r, negCover, x, a) && a !in Constants(r) {
        InvertedUsable(r, negCover, a);
        assert Fd(x, a) in InvertedFds(r, negCover, {a});
      }
    }
  }
}
