// FDep: a negative cover of violated dependencies, filtered, then inverted into the positive cover.
module Fdep {
  import opened Relations
  import opened Bits
  import opened Transversals
  import opened FdNodes
  import opened FdTree
  import opened FdCover
  import opened AttributeMasks
  import opened Options

  // The attributes, numbered from 1, on which two tuples carry the same value.
  ghost function EqualAttributes(t1: seq<int>, t2: seq<int>, n: nat): Vertical
    requires |t1| == |t2| == n
  {
    set c | c in Universe(n) && t1[c - 1] == t2[c - 1]
  }

  ghost predicate Violates(d: Fd, t1: seq<int>, t2: seq<int>, n: nat)
    requires |t1| == |t2| == n
  {
    && d.rhs in Universe(n) && t1[d.rhs - 1] != t2[d.rhs - 1]
    && d.lhs == EqualAttributes(t1, t2, n)
  }

  // d is a most special violation found among the pairs (i, j) before (rows, column).
  ghost predicate ViolatedBefore(d: Fd, tuples: seq<seq<int>>, n: nat, rows: nat, columns: nat)
    requires forall i :: 0 <= i < |tuples| ==> |tuples[i]| == n
  {
    exists i, j :: 0 <= i < j < |tuples| && (i < rows || (i == rows && j < columns))
      && Violates(d, tuples[i], tuples[j], n)
  }

  class FDep {
    const numberAttributes: nat
    const tuples: seq<seq<int>>
    var negCoverTree: FdTreeElement
    var posCoverTree: FdTreeElement
    var fdCollection: seq<Fd>

    ghost predicate Fitted() {
      numberAttributes < MAX_ATTR_NUM && forall i :: 0 <= i < |tuples| ==> |tuples[i]| == numberAttributes
    }

    ghost predicate IsRoot(tree: FdTreeElement)
      reads tree, tree.Repr
    {
      tree.Valid() && tree.offset == 0 && tree.maxAttributeNumber == numberAttributes
    }

    constructor (numberAttributes: nat, tuples: seq<seq<int>>)
      requires numberAttributes < MAX_ATTR_NUM
      requires forall i :: 0 <= i < |tuples| ==> |tuples[i]| == numberAttributes
      ensures Fitted() && this.numberAttributes == numberAttributes && this.tuples == tuples
    {
      this.numberAttributes := numberAttributes;
      this.tuples := tuples;
      negCoverTree := new FdTreeElement(numberAttributes, 0);
      posCoverTree := new FdTreeElement(numberAttributes, 0);
      fdCollection := [];
    }

    // Adds what the agree set of two tuples violates. The result tells whether the attribute mask has a value at all;
    // where it overflows int, nothing is known about the program, and the model stops.
    method AddViolatedFDs(t1: seq<int>, t2: seq<int>) returns (defined: bool)
      requires Fitted() && |t1| == |t2| == numberAttributes && IsRoot(negCoverTree)
      modifies negCoverTree.Repr
      ensures IsRoot(negCoverTree) && fresh(negCoverTree.Repr - old(negCoverTree.Repr))
      ensures defined <==> numberAttributes < MASK_LIMIT
      ensures defined ==> forall d :: d in negCoverTree.Fds <==>
        d in old(negCoverTree.Fds) || Violates(d, t1, t2, numberAttributes)
    {
      hide NodeStores, Summarises, MaskOf, BitsOf;
      MaskFits(numberAttributes);
      var mask := MaskOf(numberAttributes);
      if mask == None {
        return false;
      }
      defined := true;
      MaskIsUniverse(numberAttributes);
      var equalAttr := BitsOf(mask.value) - {0};
      var diffAttr: Vertical := {};
      var attr := 0;
      while attr < numberAttributes
        invariant 0 <= attr <= numberAttributes
        invariant forall c :: c in diffAttr <==> 1 <= c <= attr && t1[c - 1] != t2[c - 1]
      {
        if t1[attr] != t2[attr] {
          diffAttr := diffAttr + {attr + 1};
        }
        attr := attr + 1;
      }
      equalAttr := equalAttr - diffAttr;
      assert equalAttr == EqualAttributes(t1, t2, numberAttributes);
      attr := FindFrom(diffAttr, 0, MAX_ATTR_NUM);
      while attr != MAX_ATTR_NUM
        invariant attr <= MAX_ATTR_NUM && (attr < MAX_ATTR_NUM ==> attr in diffAttr)
        invariant IsRoot(negCoverTree) && fresh(negCoverTree.Repr - old(negCoverTree.Repr))
        invariant forall d :: d in negCoverTree.Fds <==>
          d in old(negCoverTree.Fds) || (d.lhs == equalAttr && d.rhs in diffAttr && d.rhs < attr)
        decreases MAX_ATTR_NUM - attr
      {
        negCoverTree.AddFunctionalDependency(equalAttr, attr);
        attr := FindNext(diffAttr, attr, MAX_ATTR_NUM);
      }
    }

    method BuildNegativeCover() returns (defined: bool, ghost violated: set<Fd>)
      requires Fitted()
      modifies this`negCoverTree
      ensures fresh(negCoverTree) && fresh(negCoverTree.Repr) && IsRoot(negCoverTree)
      ensures defined <==> numberAttributes < MASK_LIMIT || |tuples| < 2
      ensures defined ==> forall d :: d in violated <==> ViolatedBefore(d, tuples, numberAttributes, |tuples|, 0)
      ensures defined ==> forall d :: d in negCoverTree.Fds <==> Maximal(d, violated)
    {
      hide NodeStores, Summarises, Violates, MaskOf, BitsOf;
      violated := {};
      negCoverTree := new FdTreeElement(numberAttributes, 0);
      var i := 0;
      while i < |tuples|
        invariant 0 <= i <= |tuples|
        invariant fresh(negCoverTree) && fresh(negCoverTree.Repr) && IsRoot(negCoverTree)
        invariant i > 0 && |tuples| >= 2 ==> numberAttributes < MASK_LIMIT
        invariant forall d :: d in negCoverTree.Fds <==> ViolatedBefore(d, tuples, numberAttributes, i, 0)
      {
        var j := i + 1;
        while j < |tuples|
          invariant i < j <= |tuples|
          invariant fresh(negCoverTree) && fresh(negCoverTree.Repr) && IsRoot(negCoverTree)
          invariant (i > 0 || j > i + 1) && |tuples| >= 2 ==> numberAttributes < MASK_LIMIT
          invariant forall d :: d in negCoverTree.Fds <==> ViolatedBefore(d, tuples, numberAttributes, i, j)
        {
          defined := AddViolatedFDs(tuples[i], tuples[j]);
          if !defined {
            return;
          }
          ViolatedNext(tuples, numberAttributes, i, j);
          j := j + 1;
        }
        ViolatedNextRow(tuples, numberAttributes, i);
        i := i + 1;
      }
      defined := true;
      violated := negCoverTree.Fds;
      negCoverTree.FilterSpecializations();
    }

    // Replaces every stored generalization of the violated lhs -> a by its minimal corrections.
    method SpecializePositiveCover(lhs: Vertical, a: nat, ghost negative: set<Fd>)
      requires Fitted() && IsRoot(posCoverTree)
      requires 1 <= a <= numberAttributes && lhs <= Universe(numberAttributes) - {a}
      requires IsPositiveCover(posCoverTree.Fds, negative, numberAttributes)
      modifies posCoverTree.Repr
      ensures IsRoot(posCoverTree) && fresh(posCoverTree.Repr - old(posCoverTree.Repr))
      ensures IsPositiveCover(posCoverTree.Fds, negative + {Fd(lhs, a)}, numberAttributes)
    {
      hide NodeStores, Summarises, IsCover, Correcting, CoverInRange, Inside;
      ghost var before := posCoverTree.Fds;
      ghost var cover, family := LhsOf(before, a), Family(negative, a, numberAttributes);
      ghost var s := Universe(numberAttributes) - {a} - lhs;
      CoversAreInRange(before, negative, numberAttributes);
      CorrectingStart(cover, family, s, Never);
      var found, specLhs, pending := TakeGeneralization(lhs, a, cover, family, s);
      while found
        invariant IsRoot(posCoverTree) && fresh(posCoverTree.Repr - old(posCoverTree.Repr))
        invariant CoverInRange(posCoverTree.Fds, numberAttributes) && SameOutside(before, posCoverTree.Fds, a)
        invariant Correcting(cover, s, LhsOf(posCoverTree.Fds, a), pending, Never)
        invariant found ==> specLhs in cover && specLhs <= lhs && specLhs !in LhsOf(posCoverTree.Fds, a)
        invariant forall p :: p in pending ==> p.0 == specLhs && p.1 in s
        invariant !found ==> pending == {} && !HasGeneralization(posCoverTree.Fds, a, lhs)
        decreases Inside(posCoverTree.Fds, a, lhs), found
      {
        AddCorrections(lhs, a, specLhs, cover, family, s, pending);
        found, specLhs, pending := TakeGeneralization(lhs, a, cover, family, s);
      }
      FinishStep(before, posCoverTree.Fds, a, lhs, negative, numberAttributes);
    }

    // The loop condition: takes one stored generalization of lhs -> a out of the positive cover.
    method TakeGeneralization(lhs: Vertical, a: nat, ghost cover: set<Vertical>, ghost family: set<Vertical>,
                              ghost s: Vertical)
      returns (found: bool, specLhs: Vertical, ghost pending: set<(Vertical, nat)>)
      requires Fitted() && IsRoot(posCoverTree)
      requires 1 <= a <= numberAttributes && lhs <= Universe(numberAttributes) - {a}
      requires s == Universe(numberAttributes) - {a} - lhs && CoverInRange(posCoverTree.Fds, numberAttributes)
      requires IsCover(cover, family, Never) && Correcting(cover, s, LhsOf(posCoverTree.Fds, a), {}, Never)
      modifies posCoverTree.Repr
      ensures IsRoot(posCoverTree) && posCoverTree.Repr == old(posCoverTree.Repr)
      ensures CoverInRange(posCoverTree.Fds, numberAttributes)
      ensures SameOutside(old(posCoverTree.Fds), posCoverTree.Fds, a)
      ensures Correcting(cover, s, LhsOf(posCoverTree.Fds, a), pending, Never)
      ensures forall p :: p in pending ==> p.0 == specLhs && p.1 in s
      ensures found ==> specLhs in cover && specLhs <= lhs && specLhs !in LhsOf(posCoverTree.Fds, a)
      ensures found ==> Inside(posCoverTree.Fds, a, lhs) < Inside(old(posCoverTree.Fds), a, lhs)
      ensures !found ==> pending == {} && posCoverTree.Fds == old(posCoverTree.Fds)
      ensures !found ==> !HasGeneralization(posCoverTree.Fds, a, lhs)
    {
      hide NodeStores, Summarises, IsCover, Correcting;
      AboveZero(lhs);
      CorrectingHasNoNesting(posCoverTree.Fds, a, cover, s, {});
      ghost var current := posCoverTree.Fds;
      ghost var gen;
      found, specLhs, gen := posCoverTree.GetGeneralizationAndDelete(lhs, a, 0, {});
      pending := {};
      if found {
        assert specLhs == gen;
        InsideOfLess(current, gen, a, lhs);
        pending := RemoveStep(current, a, lhs, gen, cover, family, s, numberAttributes);
      }
    }

    // The inner loop: extends the removed specLhs by each attribute outside lhs.
    method AddCorrections(lhs: Vertical, a: nat, removed: Vertical, ghost cover: set<Vertical>,
                          ghost family: set<Vertical>, ghost s: Vertical, ghost allPending: set<(Vertical, nat)>)
      requires Fitted() && IsRoot(posCoverTree)
      requires 1 <= a <= numberAttributes && s == Universe(numberAttributes) - {a} - lhs
      requires removed in cover && removed <= lhs <= Universe(numberAttributes) - {a}
      requires removed !in LhsOf(posCoverTree.Fds, a)
      requires CoverInRange(posCoverTree.Fds, numberAttributes)
      requires IsCover(cover, family, Never) && Correcting(cover, s, LhsOf(posCoverTree.Fds, a), allPending, Never)
      requires forall p :: p in allPending ==> p.0 == removed && p.1 in s
      modifies posCoverTree.Repr
      ensures IsRoot(posCoverTree) && fresh(posCoverTree.Repr - old(posCoverTree.Repr))
      ensures CoverInRange(posCoverTree.Fds, numberAttributes)
      ensures SameOutside(old(posCoverTree.Fds), posCoverTree.Fds, a)
      ensures Correcting(cover, s, LhsOf(posCoverTree.Fds, a), {}, Never)
      ensures Inside(posCoverTree.Fds, a, lhs) == Inside(old(posCoverTree.Fds), a, lhs)
    {
      hide NodeStores, Summarises, IsCover, Correcting, CoverInRange, Inside, LhsOf, SameOutside;
      ghost var pending := allPending;
      NothingOutside(posCoverTree.Fds, a);
      var attr := numberAttributes;
      while attr > 0
        invariant 0 <= attr <= numberAttributes
        invariant IsRoot(posCoverTree) && fresh(posCoverTree.Repr - old(posCoverTree.Repr))
        invariant CoverInRange(posCoverTree.Fds, numberAttributes)
        invariant SameOutside(old(posCoverTree.Fds), posCoverTree.Fds, a)
        invariant Correcting(cover, s, LhsOf(posCoverTree.Fds, a), pending, Never)
        invariant removed !in LhsOf(posCoverTree.Fds, a)
        invariant forall p :: p in pending ==> p.0 == removed && p.1 in s && p.1 <= attr
        invariant Inside(posCoverTree.Fds, a, lhs) == Inside(old(posCoverTree.Fds), a, lhs)
      {
        if attr !in lhs && attr != a {
          ghost var z, current := removed + {attr}, posCoverTree.Fds;
          CorrectingAdd(cover, family, s, LhsOf(current, a), pending, Never, removed, attr);
          StoreInRange(old(posCoverTree.Fds), current, z, a, removed, lhs, numberAttributes);
          InsideOfMore(current, z, a, lhs);
          AddCorrection(removed, attr, a);
          pending := pending - {(removed, attr)};
        }
        attr := attr - 1;
      }
      assert forall p :: p in pending ==> p.1 == 0;
      assert 0 !in s && pending == {};
    }

    // Stores specLhs with attr added unless it has a stored generalization.
    method AddCorrection(specLhs: Vertical, attr: nat, a: nat)
      requires Fitted() && IsRoot(posCoverTree)
      requires 1 <= a <= numberAttributes && specLhs + {attr} <= Universe(numberAttributes)
      modifies posCoverTree.Repr
      ensures IsRoot(posCoverTree) && fresh(posCoverTree.Repr - old(posCoverTree.Repr))
      ensures HasSubset(LhsOf(old(posCoverTree.Fds), a), specLhs + {attr}) ==>
        posCoverTree.Fds == old(posCoverTree.Fds)
      ensures !HasSubset(LhsOf(old(posCoverTree.Fds), a), specLhs + {attr}) ==>
        && posCoverTree.Fds == old(posCoverTree.Fds) + {Fd(specLhs + {attr}, a)}
        && LhsOf(posCoverTree.Fds, a) == LhsOf(old(posCoverTree.Fds), a) + {specLhs + {attr}}
    {
      hide NodeStores, Summarises, LhsOf;
      var longer := specLhs + {attr};
      AboveZero(longer);
      GeneralizationMeans(posCoverTree.Fds, a, longer);
      if !posCoverTree.ContainsGeneralization(longer, a, 0) {
        LhsOfMore(posCoverTree.Fds, longer, a);
        posCoverTree.AddFunctionalDependency(longer, a);
      }
    }

    // Specializes the positive cover by the dependencies that one node of the negative cover marks.
    method SpecializeByNode(negCoverSubtree: FdTreeElement, activePath: Vertical, ghost processed: set<Fd>)
      requires Fitted() && IsRoot(posCoverTree)
      requires negCoverSubtree.Valid() && negCoverSubtree.Repr !! posCoverTree.Repr
      requires CoverInRange(LiftedHere(negCoverSubtree.isFd, activePath, numberAttributes), numberAttributes)
      requires IsPositiveCover(posCoverTree.Fds, processed, numberAttributes)
      modifies posCoverTree.Repr
      ensures IsRoot(posCoverTree) && fresh(posCoverTree.Repr - old(posCoverTree.Repr))
      ensures IsPositiveCover(posCoverTree.Fds,
                processed + LiftedHere(negCoverSubtree.isFd, activePath, numberAttributes), numberAttributes)
    {
      hide NodeStores, Summarises, IsPositiveCover, LiftedHere;
      ghost var isFd := negCoverSubtree.isFd;
      LiftedHereStart(isFd, activePath);
      assert processed + {} == processed;
      var attr := 1;
      while attr <= numberAttributes
        invariant 1 <= attr <= numberAttributes + 1
        invariant IsRoot(posCoverTree) && fresh(posCoverTree.Repr - old(posCoverTree.Repr))
        invariant IsPositiveCover(posCoverTree.Fds, processed + LiftedHere(isFd, activePath, attr - 1), numberAttributes)
      {
        ghost var here := LiftedHere(isFd, activePath, attr - 1);
        LiftedHereStep(isFd, activePath, attr);
        if attr - 1 in negCoverSubtree.isFd {
          LiftedHereMember(isFd, activePath, attr, numberAttributes);
          SpecializePositiveCover(activePath, attr, processed + here);
          assert processed + here + {Fd(activePath, attr)} == processed + LiftedHere(isFd, activePath, attr);
        } else {
          assert LiftedHere(isFd, activePath, attr) == here;
        }
        attr := attr + 1;
      }
    }

    // Walks the negative cover and specializes the positive cover by each of its dependencies.
    method CalculatePositiveCover(negCoverSubtree: FdTreeElement, activePath: Vertical, ghost processed: set<Fd>)
      requires Fitted() && IsRoot(posCoverTree)
      requires negCoverSubtree.Valid() && negCoverSubtree.maxAttributeNumber == numberAttributes
      requires negCoverSubtree.Repr !! posCoverTree.Repr
      requires forall c :: c in activePath ==> 1 <= c <= negCoverSubtree.offset
      requires CoverInRange(Lifted(negCoverSubtree.Fds, activePath), numberAttributes)
      requires IsPositiveCover(posCoverTree.Fds, processed, numberAttributes)
      modifies posCoverTree.Repr
      ensures IsRoot(posCoverTree) && fresh(posCoverTree.Repr - old(posCoverTree.Repr))
      ensures IsPositiveCover(posCoverTree.Fds, processed + Lifted(negCoverSubtree.Fds, activePath), numberAttributes)
      decreases negCoverSubtree.Repr
    {
      hide NodeStores, Summarises, IsPositiveCover, Lifted, LiftedHere, LiftedBelow, CoverInRange;
      ghost var isFd, below := negCoverSubtree.isFd, negCoverSubtree.Below;
      LiftedSplit(negCoverSubtree.Fds, isFd, below, negCoverSubtree.offset, activePath);
      PartsInRange(below, isFd, activePath, numberAttributes);
      SpecializeByNode(negCoverSubtree, activePath, processed);
      ghost var own := processed + LiftedHere(isFd, activePath, numberAttributes);
      LiftedBelowStart(below, activePath);
      assert own + {} == own;
      var attr := 1;
      while attr <= numberAttributes
        invariant 1 <= attr <= numberAttributes + 1
        invariant IsRoot(posCoverTree) && fresh(posCoverTree.Repr - old(posCoverTree.Repr))
        invariant IsPositiveCover(posCoverTree.Fds, own + LiftedBelow(below, activePath, attr - 1), numberAttributes)
      {
        ghost var done := own + LiftedBelow(below, activePath, attr - 1);
        ghost var next := Lifted(below[attr - 1], activePath + {attr});
        LiftedBelowStep(below, activePath, attr);
        if negCoverSubtree.children[attr - 1] != null {
          CalculatePositiveCover(negCoverSubtree.children[attr - 1], activePath + {attr}, done);
        } else {
          LiftedNothing(activePath + {attr});
          assert done + next == done;
        }
        assert done + next == own + LiftedBelow(below, activePath, attr);
        attr := attr + 1;
      }
      assert own + LiftedBelow(below, activePath, numberAttributes)
        == processed + Lifted(negCoverSubtree.Fds, activePath);
    }

    // Discovers exactly the minimal functional dependencies of the tuples. The run is defined except on pairs of tuples
    // that are too wide for the attribute mask.
    method ExecuteInternal() returns (defined: bool)
      requires Fitted()
      modifies this
      ensures defined <==> numberAttributes < MASK_LIMIT || |tuples| < 2
      ensures defined ==> ListsMinimalFds(fdCollection, Relation(numberAttributes, tuples, true))
    {
      hide NodeStores, Summarises, IsPositiveCover, ListsMinimalFds, Lists, Lifted;
      ghost var violated;
      defined, violated := BuildNegativeCover();
      if !defined {
        return;
      }
      posCoverTree := new FdTreeElement(numberAttributes, 0);
      posCoverTree.AddMostGeneralDependencies();
      MostGeneralCover(posCoverTree.Fds, numberAttributes);
      LiftedFromRoot(negCoverTree.Fds);
      CalculatePositiveCover(negCoverTree, {}, {});
      ghost var r: Relation := Relation(numberAttributes, tuples, true);
      assert {} + negCoverTree.Fds == negCoverTree.Fds;
      CoverIsMinimalFds(posCoverTree.Fds, negCoverTree.Fds, violated, r);
      LiftedFromRoot(posCoverTree.Fds);
      fdCollection := posCoverTree.FillFdCollection({}, []);
      assert fdCollection[0..] == fdCollection;
      ListedCoverIsMinimalFds(fdCollection, posCoverTree.Fds, r);
    }
  }

  lemma PartsInRange(below: seq<set<Fd>>, isFd: Vertical, path: Vertical, n: nat)
    requires CoverInRange(LiftedBelow(below, path, |below|) + LiftedHere(isFd, path, |below|), n)
    ensures CoverInRange(LiftedHere(isFd, path, |below|), n)
    ensures forall k :: 0 <= k < |below| ==> CoverInRange(Lifted(below[k], path + {k + 1}), n)
  {
    forall k, d | 0 <= k < |below| && d in Lifted(below[k], path + {k + 1})
      ensures 1 <= d.rhs <= n && d.lhs <= Universe(n) - {d.rhs}
    {
      LiftedBelowMember(below, path, |below|, d);
    }
  }

  lemma LiftedHereMember(isFd: Vertical, path: Vertical, attr: nat, n: nat)
    requires 1 <= attr <= n && attr - 1 in isFd
    ensures Fd(path, attr) in LiftedHere(isFd, path, n)
  {
    assert attr - 1 in UpTo(n);
  }

  // The families of violated left-hand sides are the difference families of the relation.
  lemma ViolatedFamily(violated: set<Fd>, r: Relation, a: nat)
    requires r.nullEqNull && 1 <= a <= r.numColumns
    requires forall d :: d in violated <==> ViolatedBefore(d, r.rows, r.numColumns, |r.rows|, 0)
    ensures Renumbered(Family(violated, a, r.numColumns)) == DifferenceFamily(r, AgreeSets(r), a - 1)
  {
    var family, differences := Family(violated, a, r.numColumns), DifferenceFamily(r, AgreeSets(r), a - 1);
    forall s | s in family ensures ColumnsOf(s) in differences {
      ViolationIsDifference(violated, r, a, s);
    }
    forall t | t in differences ensures t in Renumbered(family) {
      DifferenceIsViolation(violated, r, a, t);
    }
  }

  lemma ViolationIsDifference(violated: set<Fd>, r: Relation, a: nat, s: Vertical)
    requires r.nullEqNull && 1 <= a <= r.numColumns
    requires forall d :: d in violated <==> ViolatedBefore(d, r.rows, r.numColumns, |r.rows|, 0)
    requires s in Family(violated, a, r.numColumns)
    ensures ColumnsOf(s) in DifferenceFamily(r, AgreeSets(r), a - 1)
  {
    var n := r.numColumns;
    var d :| d in violated && d.rhs == a && s == Universe(n) - {a} - d.lhs;
    var i, j :| 0 <= i < j < |r.rows| && Violates(d, r.rows[i], r.rows[j], n);
    AgreeSetIsListed(r, i, j);
    ComplementRenumbered(r, i, j, a);
  }

  lemma DifferenceIsViolation(violated: set<Fd>, r: Relation, a: nat, t: Vertical)
    requires r.nullEqNull && 1 <= a <= r.numColumns
    requires forall d :: d in violated <==> ViolatedBefore(d, r.rows, r.numColumns, |r.rows|, 0)
    requires t in DifferenceFamily(r, AgreeSets(r), a - 1)
    ensures t in Renumbered(Family(violated, a, r.numColumns))
  {
    hide ViolatedBefore;
    var agree :| agree in AgreeSets(r) && a - 1 !in agree && t == r.Columns() - agree - {a - 1};
    var p :| p in RowPairs(r) && agree == r.AgreeSet(p.0, p.1);
    assert r.AgreeSet(p.0, p.1) == r.AgreeSet(p.1, p.0);
    if p.0 < p.1 {
      PairIsViolated(violated, r, a, p.0, p.1);
    } else {
      PairIsViolated(violated, r, a, p.1, p.0);
    }
  }

  lemma PairIsViolated(violated: set<Fd>, r: Relation, a: nat, i: nat, j: nat)
    requires r.nullEqNull && 1 <= a <= r.numColumns && i < j < |r.rows| && a - 1 !in r.AgreeSet(i, j)
    requires forall d :: d in violated <==> ViolatedBefore(d, r.rows, r.numColumns, |r.rows|, 0)
    ensures r.Columns() - r.AgreeSet(i, j) - {a - 1} in Renumbered(Family(violated, a, r.numColumns))
  {
    var n := r.numColumns;
    var d := Fd(EqualAttributes(r.rows[i], r.rows[j], n), a);
    assert a - 1 in r.Columns();
    assert Violates(d, r.rows[i], r.rows[j], n);
    assert ViolatedBefore(d, r.rows, n, |r.rows|, 0);
    ComplementRenumbered(r, i, j, a);
    assert Universe(n) - {a} - d.lhs in Family(violated, a, n);
  }

  lemma ComplementRenumbered(r: Relation, i: nat, j: nat, a: nat)
    requires r.nullEqNull && 1 <= a <= r.numColumns && i < j < |r.rows|
    ensures ColumnsOf(Universe(r.numColumns) - {a} - EqualAttributes(r.rows[i], r.rows[j], r.numColumns))
      == r.Columns() - r.AgreeSet(i, j) - {a - 1}
  {
    var s := Universe(r.numColumns) - {a} - EqualAttributes(r.rows[i], r.rows[j], r.numColumns);
    forall c: nat ensures c in ColumnsOf(s) <==> c in r.Columns() - r.AgreeSet(i, j) - {a - 1} {
      assert c in ColumnsOf(s) <==> c + 1 in s;
    }
  }

  // The positive cover of the filtered violations is the set of minimal FDs.
  lemma CoverIsMinimalFds(positive: set<Fd>, negative: set<Fd>, violated: set<Fd>, r: Relation)
    requires r.nullEqNull
    requires forall d :: d in violated <==> ViolatedBefore(d, r.rows, r.numColumns, |r.rows|, 0)
    requires forall d :: d in negative <==> Maximal(d, violated)
    requires IsPositiveCover(positive, negative, r.numColumns)
    ensures forall d :: d in positive <==>
      1 <= d.rhs && 0 !in d.lhs && MinimalFd(r, ColumnsOf(d.lhs), d.rhs - 1)
  {
    hide ViolatedBefore, Maximal, MinimalFd;
    forall d: Fd | 1 <= d.rhs
      ensures d in positive <==> 0 !in d.lhs && MinimalFd(r, ColumnsOf(d.lhs), d.rhs - 1)
    {
      if d.rhs <= r.numColumns {
        CoverMember(positive, negative, violated, r, d);
      } else {
        RhsInRange(r, ColumnsOf(d.lhs), d.rhs - 1);
      }
    }
  }

  lemma RhsInRange(r: Relation, x: Vertical, a: nat)
    ensures MinimalFd(r, x, a) ==> a < r.numColumns
  {
  }

  lemma CoverMember(positive: set<Fd>, negative: set<Fd>, violated: set<Fd>, r: Relation, d: Fd)
    requires r.nullEqNull && 1 <= d.rhs <= r.numColumns
    requires forall d :: d in violated <==> ViolatedBefore(d, r.rows, r.numColumns, |r.rows|, 0)
    requires forall d :: d in negative <==> Maximal(d, violated)
    requires IsPositiveCover(positive, negative, r.numColumns)
    ensures d in positive <==> 0 !in d.lhs && MinimalFd(r, ColumnsOf(d.lhs), d.rhs - 1)
  {
    hide Maximal, MinimalFd, MinimalHitting, Family, LhsOf;
    var a, n := d.rhs, r.numColumns;
    assert d in positive <==> d.lhs in LhsOf(positive, a) by {
      LhsOfMember(positive);
      assert d == Fd(d.lhs, a);
    }
    assert IsCover(LhsOf(positive, a), Family(negative, a, n), Never);
    FilteredFamily(violated, negative, a, n);
    if d in positive {
      CoverIsInRange(positive, negative, n, d);
    }
    if 0 !in d.lhs {
      RenumberedMinimal(Family(violated, a, n), d.lhs);
      ViolatedFamily(violated, r, a);
      MinimalFdIsMinimalHitting(r, ColumnsOf(d.lhs), a - 1);
    }
  }

  lemma ListedCoverIsMinimalFds(list: seq<Fd>, positive: set<Fd>, r: Relation)
    requires forall d :: d in positive <==>
      1 <= d.rhs && 0 !in d.lhs && MinimalFd(r, ColumnsOf(d.lhs), d.rhs - 1)
    requires Lists(list, positive)
    ensures ListsMinimalFds(list, r)
  {
    hide MinimalFd;
    forall x: Vertical, a: nat ensures Fd(x, a) in list <==> MinimalFd(r, x, a) {
      if MinimalFd(r, x, a) {
        var d := Fd(AttributesOf(x), a + 1);
        AttributesRoundTrip(x);
        assert d in positive;
        assert ZeroBased(d) == Fd(x, a);
      }
      if Fd(x, a) in list {
        var d :| d in positive && d.rhs > 0 && Fd(x, a) == ZeroBased(d);
      }
    }
  }

  lemma ViolatedNext(tuples: seq<seq<int>>, n: nat, i: nat, j: nat)
    requires i < j < |tuples| && forall k :: 0 <= k < |tuples| ==> |tuples[k]| == n
    ensures forall d :: ViolatedBefore(d, tuples, n, i, j + 1) <==>
      ViolatedBefore(d, tuples, n, i, j) || Violates(d, tuples[i], tuples[j], n)
  {
  }

  lemma ViolatedNextRow(tuples: seq<seq<int>>, n: nat, i: nat)
    requires i < |tuples| && forall k :: 0 <= k < |tuples| ==> |tuples[k]| == n
    ensures forall d :: ViolatedBefore(d, tuples, n, i, |tuples|) <==> ViolatedBefore(d, tuples, n, i + 1, 0)
  {
  }
}
