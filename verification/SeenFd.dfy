// What FastFDs and Depminer find from a family of agree sets, and when that is the set of minimal dependencies.
module SeenFds {
  import opened Relations
  import opened FdLists
  import opened Transversals

  // A dependency that a family of agree sets, the empty one among them, makes appear as a minimal one. Constant columns
  // are read off their indexes.
  ghost predicate SeenFd(r: Relation, agreeSets: set<Vertical>, x: Vertical, a: nat) {
    a in r.Columns() && if IsConstant(r, a) then x == {} else MinimalHitting(DifferenceFamily(r, agreeSets, a), x)
  }

  // The promise of a run on a family of agree sets, with a limit on left-hand sides.
  ghost predicate ListsSeenFds(fds: seq<Fd>, r: Relation, agreeSets: set<Vertical>, maxLhs: nat) {
    && NoDuplicates(fds)
    && forall x: Vertical, a: nat :: Fd(x, a) in fds <==> SeenFd(r, agreeSets, x, a) && |x| <= maxLhs
  }

  // Agree sets of the relation, with the empty one added, as the factory hands them out.
  ghost predicate AreSomeAgreeSets(agreeSets: set<Vertical>, r: Relation) {
    {} in agreeSets && agreeSets <= AgreeSets(r) + {{}}
  }

  // Every agree set lies, for each column that it lacks, inside one of the family that lacks the column.
  ghost predicate Suffices(agreeSets: set<Vertical>, r: Relation) {
    forall n, a :: n in AgreeSets(r) && a in r.Columns() && a !in n ==> LiesInside(n, agreeSets, a)
  }

  ghost predicate LiesInside(n: Vertical, agreeSets: set<Vertical>, a: nat) {
    exists m :: m in agreeSets && a !in m && n <= m
  }

  // ----- seen dependencies of one column and of the columns below a bound -----

  ghost function SeenFdsOf(r: Relation, agreeSets: set<Vertical>, a: nat, maxLhs: nat): set<Fd> {
    set x | x <= r.Columns() && SeenFd(r, agreeSets, x, a) && |x| <= maxLhs :: Fd(x, a)
  }

  lemma SeenFdInside(r: Relation, agreeSets: set<Vertical>, x: Vertical, a: nat)
    requires SeenFd(r, agreeSets, x, a)
    ensures x <= r.Columns() - {a} && a in r.Columns()
  {
    if !IsConstant(r, a) {
      HittingInsideUnion(DifferenceFamily(r, agreeSets, a), r.Columns() - {a}, x);
    }
  }

  lemma ConstantFd(r: Relation, agreeSets: set<Vertical>, a: nat, maxLhs: nat)
    requires a in r.Columns() && IsConstant(r, a)
    ensures SeenFdsOf(r, agreeSets, a, maxLhs) == {Fd({}, a)}
  {
    assert SeenFd(r, agreeSets, {}, a);
    var nothing: Vertical := {};
    assert |nothing| == 0;
  }

  ghost function SeenFdsBelow(r: Relation, agreeSets: set<Vertical>, bound: nat, maxLhs: nat): set<Fd> {
    set x, a | a in r.Columns() && x <= r.Columns() && a < bound && SeenFd(r, agreeSets, x, a) && |x| <= maxLhs :: Fd(x, a)
  }

  lemma NoColumnsYet(r: Relation, agreeSets: set<Vertical>, maxLhs: nat)
    ensures Appended([], [], SeenFdsBelow(r, agreeSets, 0, maxLhs))
  {
    assert SeenFdsBelow(r, agreeSets, 0, maxLhs) == {};
  }

  lemma MoreColumns(fds: seq<Fd>, middle: seq<Fd>, r: Relation, agreeSets: set<Vertical>, c: nat, maxLhs: nat)
    requires c < r.numColumns
    requires Appended(middle, [], SeenFdsBelow(r, agreeSets, c, maxLhs))
    requires Appended(fds, middle, SeenFdsOf(r, agreeSets, c, maxLhs))
    ensures Appended(fds, [], SeenFdsBelow(r, agreeSets, c + 1, maxLhs))
  {
    hide SeenFd, Appended;
    var first, second := SeenFdsBelow(r, agreeSets, c, maxLhs), SeenFdsOf(r, agreeSets, c, maxLhs);
    assert SeenFdsBelow(r, agreeSets, c + 1, maxLhs) == first + second;
    AppendMore(fds, middle, [], first, second);
  }

  lemma AllColumns(fds: seq<Fd>, r: Relation, agreeSets: set<Vertical>, maxLhs: nat)
    requires Appended(fds, [], SeenFdsBelow(r, agreeSets, r.numColumns, maxLhs))
    ensures ListsSeenFds(fds, r, agreeSets, maxLhs)
  {
    hide SeenFd;
    assert fds == fds[0..];
    forall x: Vertical, a: nat
      ensures Fd(x, a) in SeenFdsBelow(r, agreeSets, r.numColumns, maxLhs) <==> SeenFd(r, agreeSets, x, a) && |x| <= maxLhs
    {
      if SeenFd(r, agreeSets, x, a) {
        SeenFdInside(r, agreeSets, x, a);
      }
    }
  }

  // Listing some difference sets of a column that is not constant, so that each contains a listed one, changes no
  // minimal hitting set.
  lemma ListedDifferencesAreSeen(listed: set<Vertical>, r: Relation, agreeSets: set<Vertical>, a: nat)
    requires a in r.Columns() && !IsConstant(r, a)
    requires var all := DifferenceFamily(r, agreeSets, a); listed <= all && Refines(all, listed)
    ensures forall x: Vertical :: MinimalHitting(listed, x) <==> SeenFd(r, agreeSets, x, a)
  {
    hide MinimalHitting, IsConstant, DifferenceFamily;
    SameMinimalHittingSets(DifferenceFamily(r, agreeSets, a), listed);
  }

  // ----- when the family is enough -----

  lemma AllSuffice(r: Relation)
    ensures AreSomeAgreeSets(AgreeSets(r) + {{}}, r) && Suffices(AgreeSets(r) + {{}}, r)
  {
    hide AgreeSets;
    forall n, a | n in AgreeSets(r) && a in r.Columns() && a !in n ensures LiesInside(n, AgreeSets(r) + {{}}, a) {
      assert n in AgreeSets(r) + {{}} && n <= n;
    }
  }

  lemma SeenDifferences(r: Relation, agreeSets: set<Vertical>, a: nat)
    requires AreSomeAgreeSets(agreeSets, r)
    ensures DifferenceFamily(r, agreeSets, a) <= DifferenceFamily(r, AgreeSets(r), a) + {r.Columns() - {a}}
  {
    hide AgreeSets;
    forall n | n in agreeSets && a !in n
      ensures r.Columns() - n - {a} in DifferenceFamily(r, AgreeSets(r), a) + {r.Columns() - {a}}
    {
      assert n == {} ==> r.Columns() - n - {a} == r.Columns() - {a};
    }
  }

  lemma SufficientDifferences(r: Relation, agreeSets: set<Vertical>, a: nat)
    requires {} in agreeSets && Suffices(agreeSets, r) && a in r.Columns()
    ensures Refines(DifferenceFamily(r, AgreeSets(r), a) + {r.Columns() - {a}}, DifferenceFamily(r, agreeSets, a))
  {
    hide AgreeSets, LiesInside;
    var seen := DifferenceFamily(r, agreeSets, a);
    EmptyIsSeen(r, agreeSets, a);
    forall s | s in DifferenceFamily(r, AgreeSets(r), a) ensures exists t :: t in seen && t <= s {
      var n :| n in AgreeSets(r) && a !in n && s == r.Columns() - n - {a};
      assert LiesInside(n, agreeSets, a);
      CoveredDifference(r, agreeSets, n, a);
    }
  }

  lemma SeenWhenSufficient(r: Relation, agreeSets: set<Vertical>, x: Vertical, a: nat)
    requires AreSomeAgreeSets(agreeSets, r) && Suffices(agreeSets, r)
    ensures SeenFd(r, agreeSets, x, a) <==> MinimalFd(r, x, a)
  {
    hide MinimalHitting, IsConstant, MinimalFd, DifferenceFamily, AgreeSets, Refines, Suffices;
    if a in r.Columns() && !IsConstant(r, a) {
      SeenDifferences(r, agreeSets, a);
      SufficientDifferences(r, agreeSets, a);
      ListedDifferencesDecide(DifferenceFamily(r, agreeSets, a), r, a);
    }
    if a in r.Columns() && IsConstant(r, a) {
      ConstantDetermined(r, x, a);
    }
    MinimalFdHasColumn(r, x, a);
  }

  lemma MinimalFdHasColumn(r: Relation, x: Vertical, a: nat)
    ensures MinimalFd(r, x, a) ==> a in r.Columns()
  {
  }

  lemma ConstantDetermined(r: Relation, x: Vertical, a: nat)
    requires a in r.Columns() && IsConstant(r, a)
    ensures MinimalFd(r, x, a) <==> x == {}
  {
    if MinimalFd(r, x, a) {
      assert {} <= x;
    }
  }

  lemma EmptyIsSeen(r: Relation, agreeSets: set<Vertical>, a: nat)
    requires {} in agreeSets
    ensures r.Columns() - {a} in DifferenceFamily(r, agreeSets, a)
  {
    assert r.Columns() - {} - {a} == r.Columns() - {a};
  }

  lemma CoveredDifference(r: Relation, agreeSets: set<Vertical>, n: Vertical, a: nat)
    requires LiesInside(n, agreeSets, a)
    ensures exists t :: t in DifferenceFamily(r, agreeSets, a) && t <= r.Columns() - n - {a}
  {
    var m :| m in agreeSets && a !in m && n <= m;
    assert r.Columns() - m - {a} in DifferenceFamily(r, agreeSets, a);
  }

  // An agree set that lies inside none of the family hides a violation: something inside it is seen to determine a.
  lemma FalselySeen(r: Relation, agreeSets: set<Vertical>, n: Vertical, a: nat) returns (y: Vertical)
    requires n in AgreeSets(r) && a in r.Columns() && a !in n && !LiesInside(n, agreeSets, a)
    requires forall m :: m in agreeSets ==> m <= r.Columns()
    ensures SeenFd(r, agreeSets, y, a) && !Holds(r, y, a)
  {
    var p :| p in RowPairs(r) && n == r.AgreeSet(p.0, p.1);
    assert r.Agree({}, p.0, p.1);
    var family := DifferenceFamily(r, agreeSets, a);
    forall s | s in family ensures n * s != {} {
      var m :| m in agreeSets && a !in m && s == r.Columns() - m - {a};
      var c :| c in n && c !in m;
      assert c in n * s;
    }
    y := MinimalHittingInside(family, n);
    assert r.Agree(y, p.0, p.1);
  }

  // A run without a limit lists exactly the minimal dependencies when, and only when, its agree sets suffice.
  lemma ExactWhenSufficient(fds: seq<Fd>, r: Relation, agreeSets: set<Vertical>)
    requires AreSomeAgreeSets(agreeSets, r) && ListsSeenFds(fds, r, agreeSets, r.numColumns)
    ensures ListsMinimalFds(fds, r) <==> Suffices(agreeSets, r)
  {
    hide SeenFd, MinimalFd, Holds, AgreeSets, LiesInside;
    AgreeSetsInside(r);
    if Suffices(agreeSets, r) {
      SufficientUpTo(fds, r, agreeSets, r.numColumns);
      NoLimit(fds, r);
    }
    if ListsMinimalFds(fds, r) {
      forall n, a | n in AgreeSets(r) && a in r.Columns() && a !in n ensures LiesInside(n, agreeSets, a) {
        if !LiesInside(n, agreeSets, a) {
          var y := FalselySeen(r, agreeSets, n, a);
          SeenFdInside(r, agreeSets, y, a);
          SubsetSizes(y, r.Columns());
          MinimalFdHolds(r, y, a);
          assert false;
        }
      }
    }
  }

  lemma MinimalFdHolds(r: Relation, x: Vertical, a: nat)
    ensures MinimalFd(r, x, a) ==> Holds(r, x, a)
  {
  }

  lemma SubsetSizes(x: Vertical, y: Vertical)
    requires x <= y
    ensures |x| <= |y|
  {
    assert y == x + (y - x);
  }

  lemma SufficientUpTo(fds: seq<Fd>, r: Relation, agreeSets: set<Vertical>, maxLhs: nat)
    requires AreSomeAgreeSets(agreeSets, r) && ListsSeenFds(fds, r, agreeSets, maxLhs) && Suffices(agreeSets, r)
    ensures ListsMinimalFdsUpTo(fds, r, maxLhs)
  {
    hide SeenFd, MinimalFd, Suffices, AreSomeAgreeSets;
    forall x: Vertical, a: nat ensures SeenFd(r, agreeSets, x, a) <==> MinimalFd(r, x, a) {
      SeenWhenSufficient(r, agreeSets, x, a);
    }
  }
}
