// Minimal hitting sets (transversals) and the reduction of minimal FDs to them.
module Transversals {
  import opened Relations

  ghost predicate Hits(family: set<Vertical>, x: Vertical) {
    forall s :: s in family ==> x * s != {}
  }

  ghost predicate MinimalHitting(family: set<Vertical>, x: Vertical) {
    && Hits(family, x)
    && forall sub: Vertical :: sub < x ==> !Hits(family, sub)
  }

  lemma HitsMonotone(family: set<Vertical>, x: Vertical, y: Vertical)
    requires Hits(family, x) && x <= y
    ensures Hits(family, y)
  {
    forall s | s in family ensures y * s != {} {
      assert x * s != {};
      var c :| c in x * s;
      assert c in y * s;
    }
  }

  lemma MinimalHittingByDropping(family: set<Vertical>, x: Vertical)
    requires Hits(family, x)
    requires forall b :: b in x ==> !Hits(family, x - {b})
    ensures MinimalHitting(family, x)
  {
    forall sub: Vertical | sub < x ensures !Hits(family, sub) {
      var b :| b in x && b !in sub;
      if Hits(family, sub) {
        HitsMonotone(family, sub, x - {b});
      }
    }
  }

  lemma {:induction false} MinimalHittingInside(family: set<Vertical>, x: Vertical) returns (y: Vertical)
    requires Hits(family, x)
    ensures y <= x && MinimalHitting(family, y)
    decreases x
  {
    if b :| b in x && Hits(family, x - {b}) {
      y := MinimalHittingInside(family, x - {b});
    } else {
      MinimalHittingByDropping(family, x);
      y := x;
    }
  }

  // Each element of a minimal hitting set has a private member of the family.
  lemma PrivateMember(family: set<Vertical>, x: Vertical, b: nat) returns (s: Vertical)
    requires MinimalHitting(family, x) && b in x
    ensures s in family && x * s == {b}
  {
    assert x - {b} < x;
    assert !Hits(family, x - {b});
    s :| s in family && (x - {b}) * s == {};
    assert x * s != {};
    assert x * s <= {b};
  }

  // Every member of f contains a member of g.
  ghost predicate Refines(f: set<Vertical>, g: set<Vertical>) {
    forall s :: s in f ==> exists t :: t in g && t <= s
  }

  lemma RefinedHits(f: set<Vertical>, g: set<Vertical>, x: Vertical)
    requires Refines(f, g) && Hits(g, x)
    ensures Hits(f, x)
  {
    forall s | s in f ensures x * s != {} {
      var t :| t in g && t <= s;
      assert x * t != {};
      var c :| c in x * t;
      assert c in x * s;
    }
  }

  // Two families that refine each other have the same minimal hitting sets.
  lemma SameMinimalHittingSets(f: set<Vertical>, g: set<Vertical>)
    requires Refines(f, g) && Refines(g, f)
    ensures forall x: Vertical :: MinimalHitting(f, x) <==> MinimalHitting(g, x)
  {
    hide Refines;
    forall x: Vertical ensures Hits(f, x) <==> Hits(g, x) {
      if Hits(f, x) {
        RefinedHits(g, f, x);
      }
      if Hits(g, x) {
        RefinedHits(f, g, x);
      }
    }
  }

  // ----- one inversion step, shared by FDep, AID and CalculateHittingSet -----

  ghost predicate UpwardClosed(pruned: Vertical -> bool) {
    forall x: Vertical, y: Vertical :: x <= y && pruned(x) ==> pruned(y)
  }

  // cover is the set of minimal hitting sets of family; pruning only applies once there is a family.
  ghost predicate IsCover(cover: set<Vertical>, family: set<Vertical>, pruned: Vertical -> bool) {
    forall x: Vertical :: x in cover <==> MinimalHitting(family, x) && (family == {} || !pruned(x))
  }

  // next arises from cover by replacing each member that misses s by extensions with an element of s.
  ghost predicate Corrected(cover: set<Vertical>, s: Vertical, next: set<Vertical>, pruned: Vertical -> bool) {
    && (forall x :: x in cover && x * s != {} ==> x in next)
    && (forall z :: z in next ==> (z in cover && z * s != {}) || (IsCorrection(cover, s, z) && !pruned(z)))
    && (forall x, b :: x in cover && x * s == {} && b in s && !pruned(x + {b}) ==>
          exists z :: z in next && z <= x + {b})
    && (forall y, z :: y in next && z in next ==> !(y < z))
  }

  ghost predicate IsCorrection(cover: set<Vertical>, s: Vertical, z: Vertical) {
    exists x, b :: x in cover && x * s == {} && b in s && z == x + {b}
  }

  lemma CorrectionStep(cover: set<Vertical>, family: set<Vertical>, s: Vertical, next: set<Vertical>,
                       pruned: Vertical -> bool)
    requires IsCover(cover, family, pruned) && UpwardClosed(pruned)
    requires Corrected(cover, s, next, pruned)
    ensures IsCover(next, family + {s}, pruned)
  {
    forall x: Vertical | MinimalHitting(family + {s}, x) && !pruned(x) ensures x in next {
      CorrectionComplete(cover, family, s, next, pruned, x);
    }
    forall z | z in next ensures MinimalHitting(family + {s}, z) && !pruned(z) {
      CorrectionSound(cover, family, s, next, pruned, z);
    }
  }

  lemma CorrectionHits(cover: set<Vertical>, family: set<Vertical>, s: Vertical, next: set<Vertical>,
                       pruned: Vertical -> bool, z: Vertical)
    requires IsCover(cover, family, pruned) && Corrected(cover, s, next, pruned) && z in next
    ensures Hits(family + {s}, z) && !pruned(z)
  {
    if z in cover && z * s != {} {
      MinimalHittingOfNothing(family, z);
    } else {
      var x, b :| x in cover && x * s == {} && b in s && z == x + {b};
      HitsMonotone(family, x, z);
      assert b in z * s;
    }
  }

  lemma CorrectionSound(cover: set<Vertical>, family: set<Vertical>, s: Vertical, next: set<Vertical>,
                        pruned: Vertical -> bool, z: Vertical)
    requires IsCover(cover, family, pruned) && UpwardClosed(pruned)
    requires Corrected(cover, s, next, pruned) && z in next
    ensures MinimalHitting(family + {s}, z) && !pruned(z)
  {
    CorrectionHits(cover, family, s, next, pruned, z);
    forall sub: Vertical | sub <= z && Hits(family + {s}, sub) ensures sub == z {
      var y := MinimalHittingInside(family + {s}, sub);
      assert !pruned(y);
      CorrectionComplete(cover, family, s, next, pruned, y);
    }
  }

  lemma CorrectionComplete(cover: set<Vertical>, family: set<Vertical>, s: Vertical, next: set<Vertical>,
                           pruned: Vertical -> bool, x: Vertical)
    requires IsCover(cover, family, pruned) && UpwardClosed(pruned)
    requires Corrected(cover, s, next, pruned)
    requires MinimalHitting(family + {s}, x) && !pruned(x)
    ensures x in next
  {
    assert Hits(family, x);
    var y := MinimalHittingInside(family, x);
    assert !pruned(y);
    assert y in cover;
    if y * s != {} {
      assert Hits(family + {s}, y);
      assert y == x;
    } else {
      assert x * s != {};
      var b :| b in x * s;
      HitsMonotone(family, y, y + {b});
      assert b in (y + {b}) * s;
      assert Hits(family + {s}, y + {b});
      assert y + {b} <= x;
      assert y + {b} == x;
      var z :| z in next && z <= y + {b};
      CorrectionHits(cover, family, s, next, pruned, z);
      assert z == x;
    }
  }

  lemma MinimalHittingOfNothing(family: set<Vertical>, x: Vertical)
    requires MinimalHitting(family, x)
    ensures x == {} <==> family == {}
  {
    assert family == {} ==> Hits(family, {});
    assert {} <= x;
    if x == {} {
      forall s: Vertical ensures s !in family {
        assert {} * s == {};
      }
    }
  }

  lemma EmptyFamilyCover(pruned: Vertical -> bool)
    ensures IsCover({{}}, {}, pruned)
  {
    forall x: Vertical | MinimalHitting({}, x) ensures x == {} {
      MinimalHittingOfNothing({}, x);
    }
  }

  // The step under way: members that miss s are taken out of next one by one, and for each of them
  // and each element b of s the correction x + {b} is pending until it has been looked at.
  ghost predicate Correcting(cover: set<Vertical>, s: Vertical, next: set<Vertical>,
                             pending: set<(Vertical, nat)>, pruned: Vertical -> bool)
  {
    && (forall x :: x in cover && x * s != {} ==> x in next)
    && (forall z :: z in next ==> z in cover || (IsCorrection(cover, s, z) && !pruned(z)))
    && (forall x, b :: x in cover && x !in next && b in s ==>
          (x, b) in pending || pruned(x + {b}) || HasSubset(next, x + {b}))
    && (forall y, z :: y in next && z in next ==> !(y < z))
  }

  ghost predicate HasSubset(sets: set<Vertical>, x: Vertical) {
    exists z :: z in sets && z <= x
  }

  lemma CorrectingStart(cover: set<Vertical>, family: set<Vertical>, s: Vertical, pruned: Vertical -> bool)
    requires IsCover(cover, family, pruned)
    ensures Correcting(cover, s, cover, {}, pruned)
  {
  }

  lemma CorrectingRemove(cover: set<Vertical>, family: set<Vertical>, s: Vertical, next: set<Vertical>,
                         pending: set<(Vertical, nat)>, pruned: Vertical -> bool, x: Vertical)
    requires IsCover(cover, family, pruned) && Correcting(cover, s, next, pending, pruned)
    requires x in next && x in cover && x * s == {}
    ensures Correcting(cover, s, next - {x}, pending + (set b | b in s :: (x, b)), pruned)
  {
    forall y, b | y in cover && y !in next && b in s
      ensures (y, b) in pending || pruned(y + {b}) || HasSubset(next - {x}, y + {b})
    {
      if (y, b) !in pending && !pruned(y + {b}) {
        var z :| z in next && z <= y + {b};
        assert !(x < y);
        assert b in x ==> b in x * s;
        assert x <= y + {b} ==> x == y;
        assert z != x;
      }
    }
  }

  lemma CorrectingAdd(cover: set<Vertical>, family: set<Vertical>, s: Vertical, next: set<Vertical>,
                      pending: set<(Vertical, nat)>, pruned: Vertical -> bool, x: Vertical, b: nat)
    requires IsCover(cover, family, pruned) && Correcting(cover, s, next, pending, pruned)
    requires x in cover && x !in next && b in s
    ensures if HasSubset(next, x + {b}) || pruned(x + {b}) then Correcting(cover, s, next, pending - {(x, b)}, pruned)
      else Correcting(cover, s, next + {x + {b}}, pending - {(x, b)}, pruned)
  {
    var z := x + {b};
    if !HasSubset(next, z) && !pruned(z) {
      assert IsCorrection(cover, s, z);
      forall y | y in next ensures !(z < y) && !(y < z) {
        if y !in cover {
          var x', b' :| x' in cover && x' * s == {} && b' in s && y == x' + {b'};
          assert z <= y ==> b == b' && x <= x';
        }
      }
      forall y, c | y in cover && y !in next && c in s && HasSubset(next, y + {c})
        ensures HasSubset(next + {z}, y + {c})
      {
        var w :| w in next && w <= y + {c};
        assert w in next + {z};
      }
      assert z in next + {z} && z <= x + {b};
      assert HasSubset(next + {z}, x + {b});
    }
  }

  lemma CorrectingDone(cover: set<Vertical>, family: set<Vertical>, s: Vertical, next: set<Vertical>,
                       pruned: Vertical -> bool)
    requires IsCover(cover, family, pruned) && UpwardClosed(pruned)
    requires Correcting(cover, s, next, {}, pruned)
    requires forall x :: x in next ==> x * s != {}
    ensures IsCover(next, family + {s}, pruned)
  {
    forall x, b | x in cover && x * s == {} && b in s && !pruned(x + {b})
      ensures exists z :: z in next && z <= x + {b}
    {
      assert x !in next;
      assert HasSubset(next, x + {b});
    }
    CorrectionStep(cover, family, s, next, pruned);
  }

  // ----- from functional dependencies to hitting sets -----

  ghost function RowPairs(r: Relation): set<(nat, nat)> {
    set i, j | i in UpTo(|r.rows|) && j in UpTo(|r.rows|) && i != j :: (i, j)
  }

  // The agree sets of all pairs of different rows.
  ghost function AgreeSets(r: Relation): set<Vertical> {
    set p | p in RowPairs(r) :: r.AgreeSet(p.0, p.1)
  }

  // The difference sets modulo a: what a left-hand side of a has to hit.
  ghost function DifferenceFamily(r: Relation, agreeSets: set<Vertical>, a: nat): set<Vertical> {
    set n | n in agreeSets && a !in n :: r.Columns() - n - {a}
  }

  lemma AgreeSetIsListed(r: Relation, i: nat, j: nat)
    requires r.IsRow(i) && r.IsRow(j) && i != j
    ensures r.AgreeSet(i, j) in AgreeSets(r)
  {
    assert (i, j) in RowPairs(r);
  }

  lemma HoldsMeansHits(r: Relation, x: Vertical, a: nat)
    requires a in r.Columns() && x <= r.Columns() - {a}
    ensures Holds(r, x, a) <==> Hits(DifferenceFamily(r, AgreeSets(r), a), x)
  {
    var family := DifferenceFamily(r, AgreeSets(r), a);
    if Hits(family, x) {
      forall i: nat, j: nat | r.IsRow(i) && r.IsRow(j) && a !in r.AgreeSet(i, j) ensures !r.Agree(x, i, j) {
        AgreeSetIsListed(r, i, j);
        var s := r.Columns() - r.AgreeSet(i, j) - {a};
        assert s in family;
        assert x * s != {};
      }
    }
    if Holds(r, x, a) {
      forall s | s in family ensures x * s != {} {
        var n :| n in AgreeSets(r) && a !in n && s == r.Columns() - n - {a};
        var p :| p in RowPairs(r) && n == r.AgreeSet(p.0, p.1);
        assert !r.Agree(x, p.0, p.1);
        var c :| c in x && c !in n;
        assert c in x * s;
      }
    }
  }

  lemma HittingInsideUnion(family: set<Vertical>, u: Vertical, x: Vertical)
    requires MinimalHitting(family, x) && forall s :: s in family ==> s <= u
    ensures x <= u
  {
    forall b | b in x ensures b in u {
      var s := PrivateMember(family, x, b);
      assert b in x * s;
    }
  }

  // The reduction: minimal left-hand sides are exactly the minimal hitting sets of the difference sets.
  lemma MinimalFdIsMinimalHitting(r: Relation, x: Vertical, a: nat)
    requires a in r.Columns()
    ensures MinimalFd(r, x, a) <==> MinimalHitting(DifferenceFamily(r, AgreeSets(r), a), x)
  {
    var family := DifferenceFamily(r, AgreeSets(r), a);
    if MinimalHitting(family, x) {
      HittingInsideUnion(family, r.Columns() - {a}, x);
    }
    if x <= r.Columns() - {a} {
      HoldsMeansHits(r, x, a);
      forall sub: Vertical | sub < x ensures Holds(r, sub, a) <==> Hits(family, sub) {
        HoldsMeansHits(r, sub, a);
      }
    }
  }

  // ----- families with the empty agree set added, cut down to a part that refines them -----

  lemma AgreeSetsInside(r: Relation)
    ensures forall x :: x in AgreeSets(r) + {{}} ==> x <= r.Columns()
  {
  }

  lemma NonConstantDifference(r: Relation, a: nat) returns (s: Vertical)
    requires a in r.Columns() && !IsConstant(r, a)
    ensures s in DifferenceFamily(r, AgreeSets(r), a) && s <= r.Columns() - {a}
  {
    var i: nat, j: nat :| r.IsRow(i) && r.IsRow(j) && a !in r.AgreeSet(i, j);
    assert i != j by {
      assert i == j ==> r.Same(i, j, a);
    }
    AgreeSetIsListed(r, i, j);
    s := r.Columns() - r.AgreeSet(i, j) - {a};
  }

  lemma ExtraIsRefined(family: set<Vertical>, extra: Vertical, known: Vertical, listed: set<Vertical>)
    requires known in family && known <= extra && listed <= family + {extra}
    ensures Refines(listed, family)
  {
    forall m | m in listed ensures exists s :: s in family && s <= m {
      assert if m in family then m <= m else known <= m;
    }
  }

  lemma FewerRefine(family: set<Vertical>, more: set<Vertical>, listed: set<Vertical>)
    requires family <= more && Refines(more, listed)
    ensures Refines(family, listed)
  {
  }

  // Listing some difference sets of a column that is not constant, so that each contains a listed one, changes
  // no minimal hitting set; nor does the difference set of the added empty agree set.
  lemma ListedDifferencesDecide(listed: set<Vertical>, r: Relation, a: nat)
    requires a in r.Columns() && !IsConstant(r, a)
    requires var all := DifferenceFamily(r, AgreeSets(r), a) + {r.Columns() - {a}}; listed <= all && Refines(all, listed)
    ensures forall x: Vertical :: MinimalHitting(listed, x) <==> MinimalFd(r, x, a)
  {
    hide *;
    var family := DifferenceFamily(r, AgreeSets(r), a);
    var known := NonConstantDifference(r, a);
    ExtraIsRefined(family, r.Columns() - {a}, known, listed);
    FewerRefine(family, family + {r.Columns() - {a}}, listed);
    SameMinimalHittingSets(family, listed);
    forall x: Vertical ensures MinimalHitting(listed, x) <==> MinimalFd(r, x, a) {
      MinimalFdIsMinimalHitting(r, x, a);
    }
  }
}
