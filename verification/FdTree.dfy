// The cover tree of FDep: a trie over left-hand sides whose nodes carry sets of right-hand sides.
// Attributes are numbered from 1; bit 0 is unused.
module FdTree {
  import opened Relations
  import opened Bits
  import opened FdNodes

  const MAX_ATTR_NUM: nat := 256

  class FdTreeElement {
    const maxAttributeNumber: nat
    var children: seq<FdTreeElement?>
    var rhsAttributes: Vertical
    var isFd: Vertical
    ghost const offset: nat  // the attribute that leads to this node, 0 for a root
    ghost var Fds: set<Fd>  // the stored dependencies, left-hand sides relative to this node
    ghost var Below: seq<set<Fd>>  // the Fds of the children
    ghost var Repr: set<FdTreeElement>

    ghost predicate Valid()
      reads this, Repr
      decreases Repr
    {
      && Linked()
      && (forall k :: 0 <= k < |children| && children[k] != null ==> children[k].Valid())
      && (forall k :: 0 <= k < |children| ==> Below[k] == if children[k] == null then {} else children[k].Fds)
      && NodeStores(Fds, isFd, Below, offset) && Summarises(rhsAttributes, Fds)
    }

    // The footprints below form a tree.
    ghost predicate Linked()
      reads this, Repr
    {
      && this in Repr
      && offset <= maxAttributeNumber < MAX_ATTR_NUM
      && |children| == |Below| == maxAttributeNumber
      && (forall k :: 0 <= k < |children| && children[k] != null ==>
            && children[k] in Repr && children[k].Repr <= Repr && this !in children[k].Repr
            && children[k].maxAttributeNumber == maxAttributeNumber
            && children[k].offset == k + 1 && offset < k + 1)
      && (forall k, l :: 0 <= k < l < |children| && children[k] != null && children[l] != null ==>
            children[k].Repr !! children[l].Repr)
    }

    // What only the subtree of one child has been changed, the other children keep theirs.
    twostate lemma OthersKeep(changed: nat)
      requires old(Valid()) && changed < |old(children)| && children == old(children)
      requires children[changed] != null
      requires unchanged(old(Repr) - old(children[changed].Repr) - {this})
      ensures forall k :: 0 <= k < |children| && k != changed && children[k] != null ==>
        children[k].Valid() && children[k].Repr == old(children[k].Repr) && children[k].Fds == old(children[k].Fds)
    {
      hide NodeStores, Summarises;
      forall k | 0 <= k < |children| && k != changed && children[k] != null
        ensures children[k].Valid() && children[k].Repr == old(children[k].Repr)
        ensures children[k].Fds == old(children[k].Fds)
      {
        assert old(children[k].Repr) !! old(children[changed].Repr);
        assert unchanged(old(children[k].Repr));
      }
    }

    // This node is valid again once it stores what the changed child requires.
    twostate lemma ChildChanged(changed: nat)
      requires old(Valid()) && changed < |old(children)| && children == old(children)
      requires children[changed] != null && children[changed].Valid()
      requires Below == old(Below)[changed := children[changed].Fds]
      requires NodeStores(Fds, isFd, Below, offset) && Summarises(rhsAttributes, Fds)
      requires fresh(children[changed].Repr - old(children[changed].Repr))
      requires unchanged(old(Repr) - old(children[changed].Repr) - {this})
      requires Repr == old(Repr) + children[changed].Repr
      ensures Valid()
    {
      hide NodeStores, Summarises;
      OthersKeep(changed);
      forall k | 0 <= k < |children| && k != changed && children[k] != null
        ensures children[k].Repr !! children[changed].Repr
      {
        assert old(children[k].Repr) !! old(children[changed].Repr);
      }
    }

    constructor (maxAttributeNumber: nat, ghost offset: nat)
      requires offset <= maxAttributeNumber < MAX_ATTR_NUM
      ensures Valid() && fresh(Repr) && Fds == {}
      ensures this.maxAttributeNumber == maxAttributeNumber && this.offset == offset
    {
      this.maxAttributeNumber := maxAttributeNumber;
      this.offset := offset;
      children := seq(maxAttributeNumber, _ => null);
      rhsAttributes, isFd := {}, {};
      Below := seq(maxAttributeNumber, _ => {});
      Fds, Repr := {}, {this};
    }

    function ContainsGeneralization(lhs: Vertical, attrNum: nat, currentAttr: nat): (found: bool)
      requires Valid() && offset <= currentAttr
      requires forall c :: c in lhs ==> c <= maxAttributeNumber
      requires 1 <= attrNum <= maxAttributeNumber
      reads this, Repr
      ensures found <==> HasGeneralization(Fds, attrNum, Above(lhs, currentAttr))
      decreases Repr, maxAttributeNumber - currentAttr
    {
      if attrNum - 1 in isFd then
        GeneralizationHere(Fds, isFd, Below, offset, attrNum, Above(lhs, currentAttr));
        true
      else
        var next := FindNext(lhs, currentAttr, MAX_ATTR_NUM);
        AboveStep(lhs, currentAttr, MAX_ATTR_NUM);
        if next == MAX_ATTR_NUM then
          false
        else
          var child := children[next - 1];
          GeneralizationsSplit(Fds, isFd, Below, offset, attrNum, next, Above(lhs, next));
          assert child != null ==> child.Valid() && Below[next - 1] == child.Fds;
          (child != null && attrNum in child.rhsAttributes && child.ContainsGeneralization(lhs, attrNum, next))
          || ContainsGeneralization(lhs, attrNum, next)
    }

    predicate IsFinalNode(attrNum: nat)
      reads this, children
    {
      && attrNum in rhsAttributes
      && forall k :: 0 <= k < |children| ==> children[k] == null || attrNum !in children[k].rhsAttributes
    }

    lemma FinalMeansNoneBelow(attrNum: nat)
      requires attrNum in rhsAttributes && |Below| == |children|
      requires forall k :: 0 <= k < |children| && children[k] != null ==> children[k].Valid()
      requires forall k :: 0 <= k < |children| ==> Below[k] == if children[k] == null then {} else children[k].Fds
      ensures IsFinalNode(attrNum) <==> !StoredBelow(Below, attrNum)
    {
      hide NodeStores;
      forall k | 0 <= k < |children|
        ensures (children[k] != null && attrNum in children[k].rhsAttributes)
          <==> exists x: Vertical :: Fd(x, attrNum) in Below[k]
      {
        assert children[k] != null ==> children[k].Valid() && Summarises(children[k].rhsAttributes, children[k].Fds);
      }
    }

    // A child without attrNum in its summary stores nothing for it, and neither does a missing child.
    lemma SummaryBelow(next: nat)
      requires Valid() && 1 <= next <= maxAttributeNumber
      ensures forall a, x: Vertical :: Fd(x, a) in Below[next - 1] ==>
        children[next - 1] != null && a in children[next - 1].rhsAttributes && a in rhsAttributes
    {
      hide Stores;
      var child := children[next - 1];
      assert child != null ==> child.Valid() && Summarises(child.rhsAttributes, child.Fds);
      forall a, x: Vertical | Fd(x, a) in Below[next - 1] ensures a in rhsAttributes {
        StoredAbove(Fds, isFd, Below, offset, next - 1, Fd(x, a));
      }
    }

    // Removes one stored dependency X -> attrNum with X inside the part of lhs above currentAttr
    // and adds X to specLhs.
    method GetGeneralizationAndDelete(lhs: Vertical, attrNum: nat, currentAttr: nat, specLhs: Vertical)
      returns (found: bool, spec: Vertical, ghost gen: Vertical)
      requires Valid() && offset <= currentAttr
      requires forall c :: c in lhs ==> c <= maxAttributeNumber
      requires 1 <= attrNum <= maxAttributeNumber && NoNesting(Fds, attrNum)
      modifies Repr
      ensures Valid() && Repr == old(Repr)
      ensures found <==> HasGeneralization(old(Fds), attrNum, Above(lhs, currentAttr))
      ensures found ==> gen <= Above(lhs, currentAttr) && Fd(gen, attrNum) in old(Fds)
      ensures found ==> Fds == old(Fds) - {Fd(gen, attrNum)} && spec == specLhs + gen
      ensures !found ==> Fds == old(Fds) && spec == specLhs
      decreases Repr, maxAttributeNumber - currentAttr, 1
    {
      hide NodeStores;
      found, spec, gen := false, specLhs, {};
      ghost var fds, below := Fds, Below;
      if attrNum - 1 in isFd {
        GeneralizationHere(fds, isFd, below, offset, attrNum, Above(lhs, currentAttr));
        RemoveHere(fds, isFd, below, offset, attrNum);
        assert Fd({}, attrNum) in fds by { StoredHere(fds, isFd, below, offset, attrNum); }
        isFd := isFd - {attrNum - 1};
        Fds := fds - {Fd({}, attrNum)};
        SummaryAfterRemoval(Fds, isFd, below, offset, rhsAttributes, fds, {}, attrNum);
        rhsAttributes := rhsAttributes - {attrNum};
        return true, specLhs, {};
      }
      var next := FindNext(lhs, currentAttr, MAX_ATTR_NUM);
      AboveStep(lhs, currentAttr, MAX_ATTR_NUM);
      if next == MAX_ATTR_NUM {
        NoGeneralizationHere(fds, isFd, below, offset, attrNum);
        return;
      }
      GeneralizationsSplit(fds, isFd, below, offset, attrNum, next, Above(lhs, next));
      SummaryBelow(next);
      if children[next - 1] != null && attrNum in children[next - 1].rhsAttributes {
        found, spec, gen := DeleteInChild(lhs, attrNum, next, specLhs);
      }
      if !found {
        found, spec, gen := GetGeneralizationAndDelete(lhs, attrNum, next, spec);
      }
    }

    // The branch that looks below the child for attribute next.
    method DeleteInChild(lhs: Vertical, attrNum: nat, next: nat, specLhs: Vertical)
      returns (found: bool, spec: Vertical, ghost gen: Vertical)
      requires Valid() && offset < next <= maxAttributeNumber && children[next - 1] != null
      requires forall c :: c in lhs ==> c <= maxAttributeNumber
      requires 1 <= attrNum <= maxAttributeNumber && NoNesting(Fds, attrNum)
      requires attrNum - 1 !in isFd && attrNum in rhsAttributes
      modifies Repr
      ensures Valid() && Repr == old(Repr) && isFd == old(isFd)
      ensures found <==> HasGeneralization(old(Below)[next - 1], attrNum, Above(lhs, next))
      ensures found ==> gen - {next} <= Above(lhs, next) && Fd(gen, attrNum) in old(Fds) && next in gen
      ensures found ==> Fds == old(Fds) - {Fd(gen, attrNum)} && spec == specLhs + gen
      ensures !found ==> Fds == old(Fds) && spec == specLhs
      decreases Repr, maxAttributeNumber - next, 0
    {
      hide NodeStores, Summarises, HasGeneralization, NoNesting, InRange, Stores;
      ghost var fds, below := Fds, Below;
      var child := children[next - 1];
      NoNestingBelow(fds, isFd, below, offset, attrNum, next - 1);
      found, spec, gen := child.GetGeneralizationAndDelete(lhs, attrNum, next, specLhs);
      if found {
        ghost var d := Fd(gen, attrNum);
        RemoveBelow(fds, isFd, below, offset, next - 1, d);
        OthersKeep(next - 1);
        Below := below[next - 1 := child.Fds];
        Fds := fds - {Fd(gen + {next}, attrNum)};
        StoredAbove(fds, isFd, below, offset, next - 1, d);
        SummaryAfterRemoval(Fds, isFd, Below, offset, rhsAttributes, fds, gen + {next}, attrNum);
        FinalMeansNoneBelow(attrNum);
        if IsFinalNode(attrNum) {
          rhsAttributes := rhsAttributes - {attrNum};
        }
        ChildChanged(next - 1);
        spec, gen := spec + {next}, gen + {next};
      } else {
        ChildChanged(next - 1);
      }
    }

    // Looks for a stored left-hand side of attrNum that contains the part of lhs above currentAttr.
    method GetSpecialization(lhs: Vertical, attrNum: nat, currentAttr: nat) returns (found: bool)
      requires Valid() && currentAttr <= offset
      requires forall c :: c in lhs ==> c <= maxAttributeNumber && (c <= currentAttr || offset < c)
      requires 1 <= attrNum <= maxAttributeNumber
      ensures found <==> HasSpecialization(Fds, attrNum, Above(lhs, currentAttr))
      decreases Repr
    {
      hide NodeStores;
      AboveStep(lhs, currentAttr, MAX_ATTR_NUM);
      if attrNum !in rhsAttributes {
        return false;
      }
      var nextSetAttr := FindNext(lhs, currentAttr, MAX_ATTR_NUM);
      if nextSetAttr == MAX_ATTR_NUM {
        return true;
      }
      ghost var bound := Above(lhs, nextSetAttr);
      SpecializationsSplit(Fds, isFd, Below, offset, attrNum, nextSetAttr, bound);
      found := false;
      var attr := if currentAttr > 1 then currentAttr else 1;
      assert forall k :: 0 <= k < attr - 1 ==> !HasSpecialization(Below[k], attrNum, bound + {nextSetAttr}) by {
        NothingBelowOffset(Fds, isFd, Below, offset);
      }
      while !found && attr < nextSetAttr
        invariant 1 <= attr <= nextSetAttr
        invariant found ==> exists k :: 0 <= k < attr - 1 && HasSpecialization(Below[k], attrNum, bound + {nextSetAttr})
        invariant !found ==>
          forall k :: 0 <= k < attr - 1 ==> !HasSpecialization(Below[k], attrNum, bound + {nextSetAttr})
      {
        SummaryBelow(attr);
        var child := children[attr - 1];
        if child != null && attrNum in child.rhsAttributes {
          found := child.GetSpecialization(lhs, attrNum, currentAttr);
        }
        attr := attr + 1;
      }
      SummaryBelow(nextSetAttr);
      var child := children[nextSetAttr - 1];
      if !found && child != null && attrNum in child.rhsAttributes {
        found := child.GetSpecialization(lhs, attrNum, nextSetAttr);
      }
    }

    // Creates the child for an attribute unless it is there.
    method EnsureChild(attr: nat)
      requires Valid() && offset < attr <= maxAttributeNumber
      modifies this
      ensures Valid() && fresh(Repr - old(Repr)) && children[attr - 1] != null
      ensures Fds == old(Fds) && Below == old(Below) && isFd == old(isFd) && rhsAttributes == old(rhsAttributes)
    {
      hide NodeStores, Summarises;
      if children[attr - 1] == null {
        var child := new FdTreeElement(maxAttributeNumber, attr);
        children := children[attr - 1 := child];
        Repr := Repr + child.Repr;
      }
    }

    // Marks the path of lhs below this node.
    method AddBelow(lhs: Vertical, attrNum: nat, current: nat)
      requires Valid() && current == offset
      requires 1 <= attrNum <= maxAttributeNumber
      requires forall c :: c in lhs ==> c <= maxAttributeNumber
      modifies Repr
      ensures Valid() && fresh(Repr - old(Repr))
      ensures Fds == old(Fds) + {Fd(Above(lhs, current), attrNum)}
      decreases maxAttributeNumber - current
    {
      hide NodeStores, Summarises;
      AboveStep(lhs, current, MAX_ATTR_NUM);
      ghost var fds, below := Fds, Below;
      ghost var added := Fd(Above(lhs, current), attrNum);
      SummaryOfMore(rhsAttributes, fds, added);
      var i := FindNext(lhs, current, MAX_ATTR_NUM);
      if i == MAX_ATTR_NUM {
        StoreHere(fds, isFd, below, offset, attrNum);
        rhsAttributes := rhsAttributes + {attrNum};
        isFd := isFd + {attrNum - 1};
        Fds := fds + {added};
      } else {
        ghost var d := Fd(Above(lhs, i), attrNum);
        StoreBelow(fds, isFd, below, offset, i - 1, d);
        EnsureChild(i);
        label Descend:
        children[i - 1].AddBelow(lhs, attrNum, i);
        Repr := Repr + children[i - 1].Repr;
        rhsAttributes := rhsAttributes + {attrNum};
        Below := below[i - 1 := below[i - 1] + {d}];
        Fds := fds + {added};
        ChildChanged@Descend(i - 1);
      }
    }

    // Stores lhs -> attrNum; the receiver is the root of a cover tree.
    method AddFunctionalDependency(lhs: Vertical, attrNum: nat)
      requires Valid() && offset == 0
      requires 1 <= attrNum <= maxAttributeNumber
      requires forall c :: c in lhs ==> 1 <= c <= maxAttributeNumber
      modifies Repr
      ensures Valid() && fresh(Repr - old(Repr))
      ensures Fds == old(Fds) + {Fd(lhs, attrNum)}
    {
      assert Above(lhs, 0) == lhs;
      AddBelow(lhs, attrNum, 0);
    }

    method AddMostGeneralDependencies()
      requires Valid()
      modifies this
      ensures Valid() && Repr == old(Repr)
      ensures forall d :: d in Fds <==> d in old(Fds) || (d.lhs == {} && 1 <= d.rhs <= maxAttributeNumber)
    {
      hide Stores;
      var i := 1;
      while i <= maxAttributeNumber
        invariant 1 <= i <= maxAttributeNumber + 1
        invariant Valid() && Repr == old(Repr)
        invariant forall d :: d in Fds <==> d in old(Fds) || (d.lhs == {} && 1 <= d.rhs < i)
      {
        SummaryOfMore(rhsAttributes, Fds, Fd({}, i));
        StoreHere(Fds, isFd, Below, offset, i);
        rhsAttributes := rhsAttributes + {i};
        isFd := isFd + {i - 1};
        Fds := Fds + {Fd({}, i)};
        i := i + 1;
      }
    }

    // A root that takes over the children and marks of another root is valid.
    twostate lemma Adopts(other: FdTreeElement)
      requires old(other.Valid()) && this !in old(other.Repr) && unchanged(old(other.Repr))
      requires offset == other.offset && maxAttributeNumber == other.maxAttributeNumber
      requires children == other.children && isFd == other.isFd && Fds == other.Fds && Below == other.Below
      requires Repr == other.Repr - {other} + {this} && Summarises(rhsAttributes, Fds)
      ensures Valid()
    {
      hide NodeStores, Summarises;
      forall k | 0 <= k < |children| && children[k] != null
        ensures children[k].Valid() && children[k].Repr == old(other.children[k].Repr)
      {
        assert unchanged(old(other.children[k].Repr));
      }
    }

    // Keeps the most special dependencies only.
    method FilterSpecializations()
      requires Valid() && offset == 0
      modifies this
      ensures Valid() && fresh(Repr - old(Repr))
      ensures forall d :: d in Fds <==> Maximal(d, old(Fds))
    {
      hide NodeStores, Summarises, Lifted, Filtered, Antichain, InOrder;
      var filteredTree := new FdTreeElement(maxAttributeNumber, 0);
      NothingKept(Lifted(Fds, {}));
      FilterSpecializationsHelper(filteredTree, {});
      LiftedFromRoot(Fds);
      FilteredIsMaximal(Fds, filteredTree.Fds);
      MaximalSummary(rhsAttributes, Fds, filteredTree.Fds);
      label Filled:
      children := filteredTree.children;
      isFd := filteredTree.isFd;
      Fds, Below := filteredTree.Fds, filteredTree.Below;
      Repr := filteredTree.Repr - {filteredTree} + {this};
      Adopts@Filled(filteredTree);
    }

    method FilterSpecializationsHelper(filteredTree: FdTreeElement, activePath: Vertical)
      requires Valid() && filteredTree.Valid() && Repr !! filteredTree.Repr
      requires filteredTree.offset == 0 && filteredTree.maxAttributeNumber == maxAttributeNumber
      requires forall c :: c in activePath ==> 1 <= c <= offset
      requires Antichain(filteredTree.Fds) && InOrder(filteredTree.Fds, Lifted(Fds, activePath))
      modifies filteredTree.Repr
      ensures filteredTree.Valid() && fresh(filteredTree.Repr - old(filteredTree.Repr))
      ensures Filtered(old(filteredTree.Fds), Lifted(Fds, activePath), filteredTree.Fds)
      decreases Repr
    {
      hide NodeStores, Summarises, Lifted, LiftedBelow, LiftedHere, InOrder, Filtered, Antichain;
      ghost var before := filteredTree.Fds;
      FilteredNothing(before);
      LiftedBelowStart(Below, activePath);
      var attr := 1;
      while attr <= maxAttributeNumber
        invariant 1 <= attr <= maxAttributeNumber + 1
        invariant filteredTree.Valid() && fresh(filteredTree.Repr - old(filteredTree.Repr))
        invariant Filtered(before, LiftedBelow(Below, activePath, attr - 1), filteredTree.Fds)
      {
        ghost var middle, items := filteredTree.Fds, LiftedBelow(Below, activePath, attr - 1);
        ghost var more := Lifted(Below[attr - 1], activePath + {attr});
        if children[attr - 1] != null {
          ChildInOrder(before, Fds, isFd, Below, offset, activePath, attr - 1);
          FilteredKeepsOrder(before, items, middle, more);
          children[attr - 1].FilterSpecializationsHelper(filteredTree, activePath + {attr});
        } else {
          LiftedNothing(activePath + {attr});
          FilteredAntichain(before, items, middle);
          FilteredNothing(middle);
        }
        FilteredMore(before, items, middle, more, filteredTree.Fds);
        LiftedBelowStep(Below, activePath, attr);
        attr := attr + 1;
      }
      LiftedHereStart(isFd, activePath);
      ghost var inner := LiftedBelow(Below, activePath, maxAttributeNumber);
      assert inner + LiftedHere(isFd, activePath, 0) == inner;
      attr := 1;
      while attr <= maxAttributeNumber
        invariant 1 <= attr <= maxAttributeNumber + 1
        invariant filteredTree.Valid() && fresh(filteredTree.Repr - old(filteredTree.Repr))
        invariant Filtered(before, inner + LiftedHere(isFd, activePath, attr - 1), filteredTree.Fds)
      {
        ghost var middle, items := filteredTree.Fds, inner + LiftedHere(isFd, activePath, attr - 1);
        ghost var d := Fd(activePath, attr);
        LiftedHereStep(isFd, activePath, attr);
        assert attr - 1 !in isFd ==> items == inner + LiftedHere(isFd, activePath, attr);
        if attr - 1 in isFd {
          HereInOrder(before, Fds, isFd, Below, offset, activePath, attr - 1);
          assert before + items == before + inner + LiftedHere(isFd, activePath, attr - 1);
          FilteredKeepsOrder(before, items, middle, {d});
          FilteredOne(middle, d);
          AboveZero(activePath);
          SpecializationMeans(middle, d);
          var found := filteredTree.GetSpecialization(activePath, attr, 0);
          if !found {
            filteredTree.AddFunctionalDependency(activePath, attr);
          }
          FilteredMore(before, items, middle, {d}, filteredTree.Fds);
          assert items + {d} == inner + LiftedHere(isFd, activePath, attr);
        }
        attr := attr + 1;
      }
      LiftedSplit(Fds, isFd, Below, offset, activePath);
    }

    // Lists the stored dependencies in the order of the walk, with columns numbered from 0.
    method FillFdCollection(activePath: Vertical, fdCollection: seq<Fd>) returns (list: seq<Fd>)
      requires Valid()
      requires forall c :: c in activePath ==> 1 <= c <= offset
      ensures fdCollection <= list
      ensures Lists(list[|fdCollection|..], Lifted(Fds, activePath))
      decreases Repr
    {
      hide NodeStores, Summarises, Lifted, LiftedBelow, LiftedHere, Lists;
      list := fdCollection;
      ghost var more: seq<Fd> := [];
      ListNothing();
      LiftedHereStart(isFd, activePath);
      var attr := 1;
      while attr <= maxAttributeNumber
        invariant 1 <= attr <= maxAttributeNumber + 1
        invariant list == fdCollection + more && Lists(more, LiftedHere(isFd, activePath, attr - 1))
      {
        LiftedHereStep(isFd, activePath, attr);
        assert attr - 1 !in isFd ==> LiftedHere(isFd, activePath, attr) == LiftedHere(isFd, activePath, attr - 1);
        if attr - 1 in isFd {
          var lhs := set c | c in activePath :: c - 1;
          ghost var d := Fd(activePath, attr);
          assert ZeroBased(d) == Fd(lhs, attr - 1);
          LiftedHereFresh(isFd, activePath, attr);
          ListOne(d);
          ListMore(more, LiftedHere(isFd, activePath, attr - 1), [ZeroBased(d)], {d});
          list, more := list + [Fd(lhs, attr - 1)], more + [ZeroBased(d)];
        }
        attr := attr + 1;
      }
      ghost var here := LiftedHere(isFd, activePath, maxAttributeNumber);
      LiftedBelowStart(Below, activePath);
      assert here + LiftedBelow(Below, activePath, 0) == here;
      attr := 1;
      while attr <= maxAttributeNumber
        invariant 1 <= attr <= maxAttributeNumber + 1
        invariant list == fdCollection + more && Lists(more, here + LiftedBelow(Below, activePath, attr - 1))
      {
        ghost var items := here + LiftedBelow(Below, activePath, attr - 1);
        ghost var next := Lifted(Below[attr - 1], activePath + {attr});
        LiftedChildrenDistinct(Fds, isFd, Below, offset, activePath, attr - 1);
        LiftedBelowStep(Below, activePath, attr);
        ghost var part: seq<Fd> := [];
        if children[attr - 1] != null {
          var longer := children[attr - 1].FillFdCollection(activePath + {attr}, list);
          part := longer[|list|..];
          list := longer;
        } else {
          LiftedNothing(activePath + {attr});
        }
        ListMore(more, items, part, next);
        more := more + part;
        assert items + next == here + LiftedBelow(Below, activePath, attr);
        attr := attr + 1;
      }
      LiftedSplit(Fds, isFd, Below, offset, activePath);
      assert here + LiftedBelow(Below, activePath, maxAttributeNumber) == Lifted(Fds, activePath);
    }
  }
}
