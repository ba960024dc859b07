// The two covers of FDep by value, with attributes numbered from 1 as in the cover trees.
module FdCover {
  import opened Relations
  import opened Transversals
  import opened FdNodes

  function Universe(n: nat): Vertical {
    UpTo(n + 1) - {0}
  }

  ghost function LhsOf(fds: set<Fd>, a: nat): set<Vertical> {
    set d | d in fds && d.rhs == a :: d.lhs
  }

  // What the left-hand sides of a must hit: the attributes outside each violated left-hand side.
  ghost function Family(negative: set<Fd>, a: nat, n: nat): set<Vertical> {
    set d | d in negative && d.rhs == a :: Universe(n) - {a} - d.lhs
  }

  function Never(x: Vertical): bool {
    false
  }

  lemma NeverIsUpwardClosed()
    ensures UpwardClosed(Never)
  {
  }

  // The positive cover stores exactly the minimal left-hand sides that no processed violation refutes.
  ghost predicate IsPositiveCover(positive: set<Fd>, negative: set<Fd>, n: nat) {
    && (forall d :: d in positive ==> 1 <= d.rhs <= n)
    && (forall a :: 1 <= a <= n ==> IsCover(LhsOf(positive, a), Family(negative, a, n), Never))
  }

  lemma MostGeneralCover(positive: set<Fd>, n: nat)
    requires forall d :: d in positive <==> d.lhs == {} && 1 <= d.rhs <= n
    ensures IsPositiveCover(positive, {}, n)
  {
    forall a | 1 <= a <= n ensures IsCover(LhsOf(positive, a), Family({}, a, n), Never) {
      EmptyFamilyCover(Never);
      assert Fd({}, a) in positive;
      assert LhsOf(positive, a) == {{}};
      assert Family({}, a, n) == {};
    }
  }

  lemma CoverIsInRange(positive: set<Fd>, negative: set<Fd>, n: nat, d: Fd)
    requires IsPositiveCover(positive, negative, n) && d in positive
    ensures 1 <= d.rhs <= n && d.lhs <= Universe(n) - {d.rhs}
  {
    assert d.lhs in LhsOf(positive, d.rhs);
    HittingInsideUnion(Family(negative, d.rhs, n), Universe(n) - {d.rhs}, d.lhs);
  }

  lemma FamilyGrows(negative: set<Fd>, d: Fd, n: nat)
    ensures Family(negative + {d}, d.rhs, n) == Family(negative, d.rhs, n) + {Universe(n) - {d.rhs} - d.lhs}
    ensures forall a :: a != d.rhs ==> Family(negative + {d}, a, n) == Family(negative, a, n)
  {
    forall a | a != d.rhs ensures Family(negative + {d}, a, n) == Family(negative, a, n) {
      forall e | e in negative + {d} && e.rhs == a ensures e in negative {
      }
    }
  }

  lemma GeneralizationMeans(fds: set<Fd>, a: nat, bound: Vertical)
    ensures HasGeneralization(fds, a, bound) <==> HasSubset(LhsOf(fds, a), bound)
  {
    if x: Vertical :| x <= bound && Fd(x, a) in fds {
      assert x in LhsOf(fds, a);
    }
    if x :| x in LhsOf(fds, a) && x <= bound {
      assert Fd(x, a) in fds;
    }
  }

  lemma LhsOfMember(fds: set<Fd>)
    ensures forall x: Vertical, a :: Fd(x, a) in fds <==> x in LhsOf(fds, a)
  {
    forall x: Vertical, a | Fd(x, a) in fds ensures x in LhsOf(fds, a) {
      assert Fd(x, a).rhs == a;
    }
  }

  // ----- one specialization step on the stored dependencies -----

  ghost predicate CoverInRange(fds: set<Fd>, n: nat) {
    forall d :: d in fds ==> 1 <= d.rhs <= n && d.lhs <= Universe(n) - {d.rhs}
  }

  ghost predicate SameOutside(before: set<Fd>, after: set<Fd>, a: nat) {
    forall d: Fd :: d.rhs != a ==> (d in after <==> d in before)
  }

  // The stored left-hand sides that the violated one refutes.
  ghost function Inside(fds: set<Fd>, a: nat, lhs: Vertical): set<Vertical> {
    set x | x in LhsOf(fds, a) && x <= lhs
  }

  lemma CoversAreInRange(positive: set<Fd>, negative: set<Fd>, n: nat)
    requires IsPositiveCover(positive, negative, n)
    ensures CoverInRange(positive, n)
  {
    forall d | d in positive ensures d.lhs <= Universe(n) - {d.rhs} {
      CoverIsInRange(positive, negative, n, d);
    }
  }

  lemma CorrectingHasNoNesting(fds: set<Fd>, a: nat, cover: set<Vertical>, s: Vertical,
                               pending: set<(Vertical, nat)>)
    requires Correcting(cover, s, LhsOf(fds, a), pending, Never)
    ensures NoNesting(fds, a)
  {
    LhsOfMember(fds);
  }

  lemma LhsOfMore(fds: set<Fd>, z: Vertical, a: nat)
    ensures LhsOf(fds + {Fd(z, a)}, a) == LhsOf(fds, a) + {z}
  {
    LhsOfMember(fds);
    LhsOfMember(fds + {Fd(z, a)});
  }

  lemma NothingOutside(fds: set<Fd>, a: nat)
    ensures SameOutside(fds, fds, a)
  {
  }

  // Storing a correction keeps the bookkeeping of the step.
  lemma StoreInRange(before: set<Fd>, current: set<Fd>, z: Vertical, a: nat, x: Vertical, lhs: Vertical, n: nat)
    requires CoverInRange(current, n) && SameOutside(before, current, a)
    requires 1 <= a <= n && z <= Universe(n) - {a} && x !in LhsOf(current, a) && x <= lhs && !(z <= lhs)
    ensures CoverInRange(current + {Fd(z, a)}, n) && SameOutside(before, current + {Fd(z, a)}, a)
    ensures x !in LhsOf(current + {Fd(z, a)}, a)
  {
    LhsOfMore(current, z, a);
  }

  lemma InsideOfMore(fds: set<Fd>, z: Vertical, a: nat, lhs: Vertical)
    requires !(z <= lhs)
    ensures Inside(fds + {Fd(z, a)}, a, lhs) == Inside(fds, a, lhs)
  {
    LhsOfMore(fds, z, a);
  }

  lemma InsideOfLess(fds: set<Fd>, z: Vertical, a: nat, lhs: Vertical)
    requires z <= lhs && Fd(z, a) in fds
    ensures LhsOf(fds - {Fd(z, a)}, a) == LhsOf(fds, a) - {z}
    ensures Inside(fds - {Fd(z, a)}, a, lhs) < Inside(fds, a, lhs)
  {
    LhsOfMember(fds);
    LhsOfMember(fds - {Fd(z, a)});
    assert z in Inside(fds, a, lhs) && z !in Inside(fds - {Fd(z, a)}, a, lhs);
  }

  lemma RemoveStep(before: set<Fd>, a: nat, lhs: Vertical, gen: Vertical, cover: set<Vertical>,
                   family: set<Vertical>, s: Vertical, n: nat) returns (pending: set<(Vertical, nat)>)
    requires IsCover(cover, family, Never) && Correcting(cover, s, LhsOf(before, a), {}, Never)
    requires s == Universe(n) - {a} - lhs && gen <= lhs && Fd(gen, a) in before
    ensures Correcting(cover, s, LhsOf(before - {Fd(gen, a)}, a), pending, Never)
    ensures gen in cover && gen !in LhsOf(before - {Fd(gen, a)}, a)
    ensures forall p :: p in pending ==> p.0 == gen && p.1 in s
  {
    LhsOfMember(before);
    assert gen in LhsOf(before, a);
    assert forall b :: b in s ==> b !in gen;
    assert gen * s == {};
    assert gen in cover;
    CorrectingRemove(cover, family, s, LhsOf(before, a), {}, Never, gen);
    InsideOfLess(before, gen, a, lhs);
    pending := set b | b in s :: (gen, b);
    assert {} + pending == pending;
  }

  lemma FinishStep(before: set<Fd>, after: set<Fd>, a: nat, lhs: Vertical, negative: set<Fd>, n: nat)
    requires IsPositiveCover(before, negative, n) && 1 <= a <= n && SameOutside(before, after, a)
    requires CoverInRange(after, n) && !HasGeneralization(after, a, lhs)
    requires Correcting(LhsOf(before, a), Universe(n) - {a} - lhs, LhsOf(after, a), {}, Never)
    ensures IsPositiveCover(after, negative + {Fd(lhs, a)}, n)
  {
    var s := Universe(n) - {a} - lhs;
    NeverIsUpwardClosed();
    GeneralizationMeans(after, a, lhs);
    forall x | x in LhsOf(after, a) ensures x * s != {} {
      assert Fd(x, a) in after;
      var c :| c in x && c !in lhs;
      assert c in x * s;
    }
    FamilyGrows(negative, Fd(lhs, a), n);
    CorrectingDone(LhsOf(before, a), Family(negative, a, n), s, LhsOf(after, a), Never);
    forall b | 1 <= b <= n && b != a ensures LhsOf(after, b) == LhsOf(before, b) {
      LhsOfMember(before);
      LhsOfMember(after);
    }
  }

  // ----- the covers of a relation -----

  lemma {:induction false} MaximalAbove(items: set<Fd>, d: Fd, n: nat) returns (e: Fd)
    requires d in items && forall f :: f in items ==> f.lhs <= Universe(n)
    ensures Maximal(e, items) && Specializes(e, d)
    decreases Universe(n) - d.lhs
  {
    if f :| f in items && Specializes(f, d) && f != d {
      assert Universe(n) - f.lhs < Universe(n) - d.lhs;
      e := MaximalAbove(items, f, n);
    } else {
      e := d;
    }
  }

  // Dropping violations that a more special one covers does not change the minimal hitting sets.
  lemma FilteredFamily(items: set<Fd>, kept: set<Fd>, a: nat, n: nat)
    requires forall f :: f in items ==> f.lhs <= Universe(n)
    requires forall d :: d in kept <==> Maximal(d, items)
    ensures forall x :: MinimalHitting(Family(kept, a, n), x) <==> MinimalHitting(Family(items, a, n), x)
  {
    var f, g := Family(kept, a, n), Family(items, a, n);
    forall s | s in f ensures s in g {
      var d :| d in kept && d.rhs == a && s == Universe(n) - {a} - d.lhs;
      assert d in items;
    }
    forall s | s in g ensures exists t :: t in f && t <= s {
      var d :| d in items && d.rhs == a && s == Universe(n) - {a} - d.lhs;
      var e := MaximalAbove(items, d, n);
      assert Universe(n) - {a} - e.lhs in f;
    }
    SameMinimalHittingSets(g, f);
  }

  // Renumbering the columns from 1 to 0 preserves minimal hitting sets.
  ghost function Renumbered(family: set<Vertical>): set<Vertical> {
    set s | s in family :: ColumnsOf(s)
  }

  ghost function AttributesOf(x: Vertical): Vertical {
    set c | c in x :: c + 1
  }

  lemma AttributesRoundTrip(x: Vertical)
    ensures ColumnsOf(AttributesOf(x)) == x
    ensures 0 !in x ==> AttributesOf(ColumnsOf(x)) == x
  {
    forall c | c in x ensures c in ColumnsOf(AttributesOf(x)) {
      assert c + 1 in AttributesOf(x);
    }
    if 0 !in x {
      forall c | c in x ensures c in AttributesOf(ColumnsOf(x)) {
        assert c - 1 in ColumnsOf(x);
      }
    }
  }

  lemma RenumberedHits(family: set<Vertical>, x: Vertical)
    requires 0 !in x
    ensures Hits(family, x) <==> Hits(Renumbered(family), ColumnsOf(x))
  {
    forall s ensures x * s != {} <==> ColumnsOf(x) * ColumnsOf(s) != {} {
      if c :| c in x * s {
        assert c - 1 in ColumnsOf(x) * ColumnsOf(s);
      }
      if c :| c in ColumnsOf(x) * ColumnsOf(s) {
        assert c + 1 in x * s;
      }
    }
    if Hits(Renumbered(family), ColumnsOf(x)) {
      forall s | s in family ensures x * s != {} {
        assert ColumnsOf(s) in Renumbered(family);
      }
    }
  }

  lemma RenumberedMinimal(family: set<Vertical>, x: Vertical)
    requires 0 !in x
    ensures MinimalHitting(family, x) <==> MinimalHitting(Renumbered(family), ColumnsOf(x))
  {
    RenumberedHits(family, x);
    if MinimalHitting(family, x) {
      forall sub: Vertical | sub < ColumnsOf(x) ensures !Hits(Renumbered(family), sub) {
        AttributesRoundTrip(sub);
        AttributesRoundTrip(x);
        assert AttributesOf(sub) < x;
        RenumberedHits(family, AttributesOf(sub));
      }
    }
    if MinimalHitting(Renumbered(family), ColumnsOf(x)) {
      forall sub: Vertical | sub < x ensures !Hits(family, sub) {
        AttributesRoundTrip(sub);
        AttributesRoundTrip(x);
        assert ColumnsOf(sub) < ColumnsOf(x);
        RenumberedHits(family, sub);
      }
    }
  }
}
