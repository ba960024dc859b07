// One node of the cover tree by value: what its marks and its children say about stored dependencies.
module FdNodes {
  import opened Relations
  import opened Bits

  // One trie node by value: a dependency is stored here when this node marks it, or when the child
  // of its first attribute stores the rest; below[k] is what the child for attribute k + 1 stores.
  ghost predicate Stores(d: Fd, isFd: Vertical, below: seq<set<Fd>>, offset: nat) {
    && InRange(d, offset, |below|)
    && if d.lhs == {} then d.rhs - 1 in isFd else Rest(d) in below[Min(d.lhs) - 1]
  }

  ghost function Rest(d: Fd): Fd
    requires d.lhs != {}
  {
    Fd(d.lhs - {Min(d.lhs)}, d.rhs)
  }

  ghost predicate InRange(d: Fd, offset: nat, n: nat) {
    1 <= d.rhs <= n && forall c :: c in d.lhs ==> offset < c <= n
  }

  ghost predicate NodeStores(fds: set<Fd>, isFd: Vertical, below: seq<set<Fd>>, offset: nat) {
    && (forall d :: d in fds <==> Stores(d, isFd, below, offset))
    && (forall k, d :: 0 <= k < |below| && d in below[k] ==> offset <= k && InRange(d, k + 1, |below|))
  }

  ghost predicate Summarises(rhsAttributes: Vertical, fds: set<Fd>) {
    forall a :: a in rhsAttributes <==> exists x: Vertical :: Fd(x, a) in fds
  }

  lemma SummaryOfMore(rhsAttributes: Vertical, fds: set<Fd>, d: Fd)
    requires Summarises(rhsAttributes, fds)
    ensures Summarises(rhsAttributes + {d.rhs}, fds + {d})
  {
    assert Fd(d.lhs, d.rhs) in fds + {d};
  }

  lemma AboveStep(lhs: Vertical, current: nat, size: nat)
    requires forall c :: c in lhs ==> c < size
    ensures var next := FindNext(lhs, current, size);
      if next == size then Above(lhs, current) == {}
      else Above(lhs, current) == Above(lhs, next) + {next}
  {
  }

  lemma MinOfExtended(x: Vertical, m: nat)
    requires forall c :: c in x ==> m < c
    ensures Min(x + {m}) == m && (x + {m}) - {m} == x
  {
  }

  // Storing one more dependency below child k stores its extension here.
  lemma StoreBelow(fds: set<Fd>, isFd: Vertical, below: seq<set<Fd>>, offset: nat, k: nat, d: Fd)
    requires NodeStores(fds, isFd, below, offset)
    requires offset <= k < |below| && InRange(d, k + 1, |below|)
    ensures NodeStores(fds + {Fd(d.lhs + {k + 1}, d.rhs)}, isFd, below[k := below[k] + {d}], offset)
  {
    MinOfExtended(d.lhs, k + 1);
    var e := Fd(d.lhs + {k + 1}, d.rhs);
    forall f: Fd | Stores(f, isFd, below[k := below[k] + {d}], offset) ensures f in fds + {e} {
      if !Stores(f, isFd, below, offset) {
        assert Rest(f) == d;
        assert f.lhs == d.lhs + {k + 1};
      }
    }
  }

  lemma StoreHere(fds: set<Fd>, isFd: Vertical, below: seq<set<Fd>>, offset: nat, a: nat)
    requires NodeStores(fds, isFd, below, offset)
    requires 1 <= a <= |below|
    ensures NodeStores(fds + {Fd({}, a)}, isFd + {a - 1}, below, offset)
  {
    forall d: Fd | Stores(d, isFd + {a - 1}, below, offset) ensures d in fds + {Fd({}, a)} {
      if !Stores(d, isFd, below, offset) {
        assert d == Fd({}, a);
      }
    }
  }

  lemma RemoveHere(fds: set<Fd>, isFd: Vertical, below: seq<set<Fd>>, offset: nat, a: nat)
    requires NodeStores(fds, isFd, below, offset)
    requires 1 <= a <= |below|
    ensures NodeStores(fds - {Fd({}, a)}, isFd - {a - 1}, below, offset)
  {
  }

  lemma RemoveBelow(fds: set<Fd>, isFd: Vertical, below: seq<set<Fd>>, offset: nat, k: nat, d: Fd)
    requires NodeStores(fds, isFd, below, offset)
    requires offset <= k < |below| && InRange(d, k + 1, |below|)
    ensures NodeStores(fds - {Fd(d.lhs + {k + 1}, d.rhs)}, isFd, below[k := below[k] - {d}], offset)
  {
    MinOfExtended(d.lhs, k + 1);
    var e := Fd(d.lhs + {k + 1}, d.rhs);
    forall f: Fd | f in fds - {e} ensures Stores(f, isFd, below[k := below[k] - {d}], offset) {
      if f.lhs != {} && Rest(f) == d {
        assert f.lhs == d.lhs + {Min(f.lhs)};
      }
    }
  }

  lemma StoredHere(fds: set<Fd>, isFd: Vertical, below: seq<set<Fd>>, offset: nat, a: nat)
    requires NodeStores(fds, isFd, below, offset) && 1 <= a <= |below| && a - 1 in isFd
    ensures Fd({}, a) in fds
  {
  }

  lemma StoredAbove(fds: set<Fd>, isFd: Vertical, below: seq<set<Fd>>, offset: nat, k: nat, d: Fd)
    requires NodeStores(fds, isFd, below, offset) && k < |below| && d in below[k]
    ensures Fd(d.lhs + {k + 1}, d.rhs) in fds
  {
    MinOfExtended(d.lhs, k + 1);
  }

  // No stored left-hand side of a lies inside another.
  ghost predicate NoNesting(fds: set<Fd>, a: nat) {
    forall x: Vertical, y: Vertical :: Fd(x, a) in fds && Fd(y, a) in fds ==> !(x < y)
  }

  lemma NoNestingBelow(fds: set<Fd>, isFd: Vertical, below: seq<set<Fd>>, offset: nat, a: nat, k: nat)
    requires NodeStores(fds, isFd, below, offset) && NoNesting(fds, a) && k < |below|
    ensures NoNesting(below[k], a)
  {
    forall x: Vertical, y: Vertical | Fd(x, a) in below[k] && Fd(y, a) in below[k] ensures !(x < y) {
      MinOfExtended(x, k + 1);
      MinOfExtended(y, k + 1);
      assert Fd(x + {k + 1}, a) in fds && Fd(y + {k + 1}, a) in fds;
      if x < y {
        assert x + {k + 1} < y + {k + 1};
      }
    }
  }

  // The stored dependencies of a are gone with the empty left-hand side, or otherwise by the
  // test on the children.
  lemma SummaryAfterRemoval(fds: set<Fd>, isFd: Vertical, below: seq<set<Fd>>, offset: nat,
                            rhsAttributes: Vertical, old_fds: set<Fd>, gen: Vertical, a: nat)
    requires NodeStores(fds, isFd, below, offset) && Summarises(rhsAttributes, old_fds)
    requires fds == old_fds - {Fd(gen, a)} && Fd(gen, a) in old_fds && NoNesting(old_fds, a) && 1 <= a
    ensures gen == {} ==> Summarises(rhsAttributes - {a}, fds)
    ensures gen != {} && a - 1 !in isFd ==>
      Summarises(if StoredBelow(below, a) then rhsAttributes else rhsAttributes - {a}, fds)
  {
    assert forall x: Vertical, b :: b != a ==> (Fd(x, b) in fds <==> Fd(x, b) in old_fds);
    if gen == {} {
      forall x: Vertical ensures Fd(x, a) !in fds {
        assert x == {} || {} < x;
      }
    } else if a - 1 !in isFd {
      if k, x: Vertical :| 0 <= k < |below| && Fd(x, a) in below[k] {
        MinOfExtended(x, k + 1);
        assert Rest(Fd(x + {k + 1}, a)) == Fd(x, a);
        assert Fd(x + {k + 1}, a) in fds;
      } else {
        forall x: Vertical ensures Fd(x, a) !in fds {
          assert !Stores(Fd(x, a), isFd, below, offset);
        }
      }
    }
  }

  ghost predicate StoredBelow(below: seq<set<Fd>>, a: nat) {
    exists k, x: Vertical :: 0 <= k < |below| && Fd(x, a) in below[k]
  }

  // Some stored left-hand side of a lies inside bound.
  ghost predicate HasGeneralization(fds: set<Fd>, a: nat, bound: Vertical) {
    exists x: Vertical :: x <= bound && Fd(x, a) in fds
  }

  lemma GeneralizationHere(fds: set<Fd>, isFd: Vertical, below: seq<set<Fd>>, offset: nat, a: nat, bound: Vertical)
    requires NodeStores(fds, isFd, below, offset) && 1 <= a <= |below| && a - 1 in isFd
    ensures HasGeneralization(fds, a, bound)
  {
    assert {} <= bound && Fd({}, a) in fds;
  }

  lemma NoGeneralizationHere(fds: set<Fd>, isFd: Vertical, below: seq<set<Fd>>, offset: nat, a: nat)
    requires NodeStores(fds, isFd, below, offset) && 1 <= a && a - 1 !in isFd
    ensures !HasGeneralization(fds, a, {})
  {
  }

  // A generalization either starts with the next attribute of the bound or does without it.
  lemma GeneralizationsSplit(fds: set<Fd>, isFd: Vertical, below: seq<set<Fd>>, offset: nat,
                             a: nat, next: nat, rest: Vertical)
    requires NodeStores(fds, isFd, below, offset)
    requires offset < next <= |below| && 1 <= a && a - 1 !in isFd
    requires forall c :: c in rest ==> next < c
    ensures HasGeneralization(fds, a, rest + {next}) <==>
      HasGeneralization(fds, a, rest) || HasGeneralization(below[next - 1], a, rest)
  {
    if HasGeneralization(below[next - 1], a, rest) {
      var x: Vertical :| x <= rest && Fd(x, a) in below[next - 1];
      MinOfExtended(x, next);
      assert Fd(x + {next}, a) in fds;
      assert x + {next} <= rest + {next};
    }
    if HasGeneralization(fds, a, rest) {
      var x: Vertical :| x <= rest && Fd(x, a) in fds;
      assert x <= rest + {next};
    }
    if x: Vertical :| x <= rest + {next} && Fd(x, a) in fds {
      if next in x {
        assert x - {next} <= rest && Rest(Fd(x, a)) == Fd(x - {next}, a);
      } else {
        assert x <= rest;
      }
    }
  }

  lemma NothingBelowOffset(fds: set<Fd>, isFd: Vertical, below: seq<set<Fd>>, offset: nat)
    requires NodeStores(fds, isFd, below, offset)
    ensures forall k :: 0 <= k < |below| && k < offset ==> below[k] == {}
  {
  }

  // Some stored left-hand side of a contains bound.
  ghost predicate HasSpecialization(fds: set<Fd>, a: nat, bound: Vertical) {
    exists x: Vertical :: bound <= x && Fd(x, a) in fds
  }

  lemma SpecializationsSplit(fds: set<Fd>, isFd: Vertical, below: seq<set<Fd>>, offset: nat,
                             a: nat, next: nat, rest: Vertical)
    requires NodeStores(fds, isFd, below, offset) && offset < next <= |below|
    requires forall c :: c in rest ==> next < c
    ensures HasSpecialization(fds, a, rest + {next}) <==>
      HasSpecialization(below[next - 1], a, rest)
      || exists k :: 0 <= k < next - 1 && HasSpecialization(below[k], a, rest + {next})
  {
    if HasSpecialization(below[next - 1], a, rest) {
      var x: Vertical :| rest <= x && Fd(x, a) in below[next - 1];
      StoredAbove(fds, isFd, below, offset, next - 1, Fd(x, a));
      assert rest + {next} <= x + {next};
    }
    if k :| 0 <= k < next - 1 && HasSpecialization(below[k], a, rest + {next}) {
      var x: Vertical :| rest + {next} <= x && Fd(x, a) in below[k];
      StoredAbove(fds, isFd, below, offset, k, Fd(x, a));
      assert rest + {next} <= x + {k + 1};
    }
    if x: Vertical :| rest + {next} <= x && Fd(x, a) in fds {
      var m := Min(x);
      assert Fd(x - {m}, a) in below[m - 1];
      if m == next {
        assert rest <= x - {m};
      } else {
        assert m < next && rest + {next} <= x - {m};
        assert HasSpecialization(below[m - 1], a, rest + {next});
      }
    }
  }

  // ----- filtering specializations -----

  // The dependencies of a subtree seen from the root, where path leads to the subtree.
  ghost function Lifted(fds: set<Fd>, path: Vertical): set<Fd> {
    set d | d in fds :: Fd(path + d.lhs, d.rhs)
  }

  ghost function LiftedBelow(below: seq<set<Fd>>, path: Vertical, count: nat): set<Fd>
    requires count <= |below|
  {
    if count == 0 then {} else LiftedBelow(below, path, count - 1) + Lifted(below[count - 1], path + {count})
  }

  ghost function LiftedHere(isFd: Vertical, path: Vertical, count: nat): set<Fd> {
    set a | a in UpTo(count) && a in isFd :: Fd(path, a + 1)
  }

  ghost predicate Specializes(e: Fd, d: Fd) {
    e.rhs == d.rhs && d.lhs <= e.lhs
  }

  ghost predicate Maximal(d: Fd, items: set<Fd>) {
    d in items && forall e :: e in items && Specializes(e, d) ==> e == d
  }

  // No item extends a dependency that is already kept.
  ghost predicate InOrder(kept: set<Fd>, items: set<Fd>) {
    forall e, d :: e in kept && d in items && Specializes(d, e) ==> d == e
  }

  ghost predicate Antichain(kept: set<Fd>) {
    forall e, d :: e in kept && d in kept && Specializes(d, e) ==> d == e
  }

  // after keeps what was kept before and adds enough of items to dominate all of them.
  ghost predicate Filtered(before: set<Fd>, items: set<Fd>, after: set<Fd>) {
    && before <= after <= before + items
    && Antichain(after)
    && forall d :: d in items ==> exists e :: e in after && Specializes(e, d)
  }

  lemma FilteredIsMaximal(items: set<Fd>, after: set<Fd>)
    requires Filtered({}, items, after)
    ensures forall d :: d in after <==> Maximal(d, items)
  {
    forall d | d in after ensures Maximal(d, items) {
      forall e | e in items && Specializes(e, d) ensures e == d {
        var f :| f in after && Specializes(f, e);
        assert Specializes(f, d);
      }
    }
  }

  lemma FilteredMore(before: set<Fd>, items: set<Fd>, middle: set<Fd>, more: set<Fd>, after: set<Fd>)
    requires Filtered(before, items, middle) && Filtered(middle, more, after)
    ensures Filtered(before, items + more, after)
  {
  }

  lemma FilteredOne(kept: set<Fd>, d: Fd)
    requires Antichain(kept) && InOrder(kept, {d})
    ensures if exists e :: e in kept && Specializes(e, d) then Filtered(kept, {d}, kept)
      else Filtered(kept, {d}, kept + {d})
  {
  }

  lemma NothingKept(items: set<Fd>)
    ensures Antichain({}) && InOrder({}, items)
  {
  }

  lemma FilteredNothing(before: set<Fd>)
    requires Antichain(before)
    ensures Filtered(before, {}, before)
  {
  }

  lemma FilteredAntichain(before: set<Fd>, items: set<Fd>, after: set<Fd>)
    requires Filtered(before, items, after)
    ensures Antichain(after)
  {
  }

  lemma FilteredKeepsOrder(before: set<Fd>, items: set<Fd>, after: set<Fd>, more: set<Fd>)
    requires Filtered(before, items, after) && InOrder(before + items, more)
    ensures InOrder(after, more) && Antichain(after)
  {
  }

  lemma SpecializationMeans(kept: set<Fd>, d: Fd)
    ensures HasSpecialization(kept, d.rhs, d.lhs) <==> exists e :: e in kept && Specializes(e, d)
  {
    if x: Vertical :| d.lhs <= x && Fd(x, d.rhs) in kept {
      assert Specializes(Fd(x, d.rhs), d);
    }
    if e :| e in kept && Specializes(e, d) {
      assert e == Fd(e.lhs, d.rhs);
    }
  }

  lemma MaximalSummary(rhsAttributes: Vertical, items: set<Fd>, after: set<Fd>)
    requires Summarises(rhsAttributes, items) && Filtered({}, items, after)
    ensures Summarises(rhsAttributes, after)
  {
    forall a | a in rhsAttributes ensures exists x: Vertical :: Fd(x, a) in after {
      var x: Vertical :| Fd(x, a) in items;
      var e :| e in after && Specializes(e, Fd(x, a));
      assert e == Fd(e.lhs, a);
    }
  }

  lemma LiftedFromRoot(fds: set<Fd>)
    ensures Lifted(fds, {}) == fds
  {
    forall d ensures d in fds <==> d in Lifted(fds, {}) {
      assert {} + d.lhs == d.lhs;
    }
  }

  lemma LiftedNothing(path: Vertical)
    ensures Lifted({}, path) == {}
  {
  }

  lemma LiftedBelowStart(below: seq<set<Fd>>, path: Vertical)
    ensures LiftedBelow(below, path, 0) == {}
  {
  }

  lemma LiftedBelowStep(below: seq<set<Fd>>, path: Vertical, attr: nat)
    requires 1 <= attr <= |below|
    ensures LiftedBelow(below, path, attr)
      == LiftedBelow(below, path, attr - 1) + Lifted(below[attr - 1], path + {attr})
  {
  }

  lemma LiftedHereStart(isFd: Vertical, path: Vertical)
    ensures LiftedHere(isFd, path, 0) == {}
  {
  }

  lemma LiftedHereStep(isFd: Vertical, path: Vertical, attr: nat)
    requires 1 <= attr
    ensures LiftedHere(isFd, path, attr) == LiftedHere(isFd, path, attr - 1)
      + (if attr - 1 in isFd then {Fd(path, attr)} else {})
  {
  }

  lemma LiftedHereFresh(isFd: Vertical, path: Vertical, attr: nat)
    requires 1 <= attr
    ensures LiftedHere(isFd, path, attr - 1) !! {Fd(path, attr)}
  {
  }

  lemma LiftedBelowMember(below: seq<set<Fd>>, path: Vertical, count: nat, d: Fd)
    requires count <= |below|
    ensures d in LiftedBelow(below, path, count) <==>
      exists k :: 0 <= k < count && d in Lifted(below[k], path + {k + 1})
  {
  }

  // A node's dependencies are those of its children and its own.
  lemma LiftedSplit(fds: set<Fd>, isFd: Vertical, below: seq<set<Fd>>, offset: nat, path: Vertical)
    requires NodeStores(fds, isFd, below, offset)
    ensures Lifted(fds, path) == LiftedBelow(below, path, |below|) + LiftedHere(isFd, path, |below|)
  {
    hide NodeStores, LiftedBelow, LiftedHere;
    PartsAreLifted(fds, isFd, below, offset, path);
    forall f | f in fds
      ensures Fd(path + f.lhs, f.rhs) in LiftedBelow(below, path, |below|) + LiftedHere(isFd, path, |below|)
    {
      LiftedFromParts(fds, isFd, below, offset, path, f);
    }
  }

  lemma PartsAreLifted(fds: set<Fd>, isFd: Vertical, below: seq<set<Fd>>, offset: nat, path: Vertical)
    requires NodeStores(fds, isFd, below, offset)
    ensures LiftedBelow(below, path, |below|) <= Lifted(fds, path)
    ensures LiftedHere(isFd, path, |below|) <= Lifted(fds, path)
  {
    hide NodeStores, LiftedBelow;
    forall d | d in LiftedBelow(below, path, |below|) ensures d in Lifted(fds, path) {
      LiftedBelowMember(below, path, |below|, d);
      var k :| 0 <= k < |below| && d in Lifted(below[k], path + {k + 1});
      LiftedFromChild(fds, isFd, below, offset, path, k, d);
    }
    forall a | a in UpTo(|below|) && a in isFd ensures Fd(path, a + 1) in Lifted(fds, path) {
      StoredHere(fds, isFd, below, offset, a + 1);
      assert path + {} == path;
    }
  }

  lemma LiftedFromParts(fds: set<Fd>, isFd: Vertical, below: seq<set<Fd>>, offset: nat, path: Vertical, f: Fd)
    requires NodeStores(fds, isFd, below, offset) && f in fds
    ensures Fd(path + f.lhs, f.rhs) in LiftedBelow(below, path, |below|) + LiftedHere(isFd, path, |below|)
  {
    var d := Fd(path + f.lhs, f.rhs);
    if f.lhs == {} {
      assert f.rhs - 1 in UpTo(|below|) && path + {} == path;
    } else {
      var k := Min(f.lhs) - 1;
      assert path + f.lhs == path + {k + 1} + Rest(f).lhs;
      assert d in Lifted(below[k], path + {k + 1});
      LiftedBelowMember(below, path, |below|, d);
    }
  }

  lemma LiftedFromChild(fds: set<Fd>, isFd: Vertical, below: seq<set<Fd>>, offset: nat, path: Vertical,
                        k: nat, d: Fd)
    requires NodeStores(fds, isFd, below, offset)
    requires k < |below| && d in Lifted(below[k], path + {k + 1})
    ensures d in Lifted(fds, path)
    ensures k + 1 in d.lhs
    ensures (forall c :: c in path ==> c <= offset) ==> forall c :: offset < c <= k ==> c !in d.lhs
  {
    var f :| f in below[k] && d == Fd(path + {k + 1} + f.lhs, f.rhs);
    StoredAbove(fds, isFd, below, offset, k, f);
    assert path + {k + 1} + f.lhs == path + (f.lhs + {k + 1});
  }

  // Children visited earlier hold nothing that a later child extends ...
  lemma ChildInOrder(before: set<Fd>, fds: set<Fd>, isFd: Vertical, below: seq<set<Fd>>, offset: nat,
                     path: Vertical, count: nat)
    requires NodeStores(fds, isFd, below, offset) && count < |below|
    requires forall c :: c in path ==> c <= offset
    requires InOrder(before, Lifted(fds, path))
    ensures InOrder(before + LiftedBelow(below, path, count), Lifted(below[count], path + {count + 1}))
  {
    forall e, d | e in before + LiftedBelow(below, path, count) && d in Lifted(below[count], path + {count + 1})
      ensures Specializes(d, e) ==> d == e
    {
      LiftedFromChild(fds, isFd, below, offset, path, count, d);
      LiftedBelowMember(below, path, count, e);
      if k :| 0 <= k < count && e in Lifted(below[k], path + {k + 1}) {
        LiftedFromChild(fds, isFd, below, offset, path, k, e);
        NonEmptyChildIsPastOffset(fds, isFd, below, offset, path, k, e);
      }
    }
  }

  lemma NonEmptyChildIsPastOffset(fds: set<Fd>, isFd: Vertical, below: seq<set<Fd>>, offset: nat, path: Vertical,
                                  k: nat, d: Fd)
    requires NodeStores(fds, isFd, below, offset)
    requires k < |below| && d in Lifted(below[k], path + {k + 1})
    ensures offset <= k
  {
    var f :| f in below[k] && d == Fd(path + {k + 1} + f.lhs, f.rhs);
  }

  // ... and neither do the children and the node itself.
  lemma HereInOrder(before: set<Fd>, fds: set<Fd>, isFd: Vertical, below: seq<set<Fd>>, offset: nat,
                    path: Vertical, a: nat)
    requires NodeStores(fds, isFd, below, offset) && a < |below| && a in isFd
    requires forall c :: c in path ==> c <= offset
    requires InOrder(before, Lifted(fds, path))
    ensures InOrder(before + LiftedBelow(below, path, |below|) + LiftedHere(isFd, path, a), {Fd(path, a + 1)})
  {
    var d := Fd(path, a + 1);
    assert d in Lifted(fds, path) by {
      StoredHere(fds, isFd, below, offset, a + 1);
      assert path + {} == path;
    }
    forall e | e in LiftedBelow(below, path, |below|) ensures !(e.lhs <= path) {
      LiftedBelowMember(below, path, |below|, e);
      var k :| 0 <= k < |below| && e in Lifted(below[k], path + {k + 1});
      LiftedFromChild(fds, isFd, below, offset, path, k, e);
      NonEmptyChildIsPastOffset(fds, isFd, below, offset, path, k, e);
    }
  }
  // ----- listing the dependencies -----

  lemma {:induction false} LiftedChildrenDistinct(fds: set<Fd>, isFd: Vertical, below: seq<set<Fd>>, offset: nat,
                                                  path: Vertical, count: nat)
    requires NodeStores(fds, isFd, below, offset) && count < |below|
    requires forall c :: c in path ==> c <= offset
    ensures LiftedBelow(below, path, count) !! Lifted(below[count], path + {count + 1})
    ensures LiftedHere(isFd, path, |below|) !! Lifted(below[count], path + {count + 1})
  {
    hide NodeStores;
    forall d | d in Lifted(below[count], path + {count + 1})
      ensures d !in LiftedBelow(below, path, count) && d !in LiftedHere(isFd, path, |below|)
    {
      LiftedFromChild(fds, isFd, below, offset, path, count, d);
      NonEmptyChildIsPastOffset(fds, isFd, below, offset, path, count, d);
      LiftedBelowMember(below, path, count, d);
      if k :| 0 <= k < count && d in Lifted(below[k], path + {k + 1}) {
        LiftedFromChild(fds, isFd, below, offset, path, k, d);
        NonEmptyChildIsPastOffset(fds, isFd, below, offset, path, k, d);
      }
    }
  }

  // The relation's own numbering of columns starts at 0.
  ghost function ColumnsOf(lhs: Vertical): Vertical {
    set c | c in lhs && c > 0 :: c - 1
  }

  ghost function ZeroBased(d: Fd): Fd
    requires d.rhs > 0
  {
    Fd(ColumnsOf(d.lhs), d.rhs - 1)
  }

  // The list holds the given dependencies, renumbered, once each.
  ghost predicate Lists(list: seq<Fd>, fds: set<Fd>) {
    && NoDuplicates(list)
    && (forall d :: d in fds ==> d.rhs > 0 && 0 !in d.lhs && ZeroBased(d) in list)
    && (forall e :: e in list ==> exists d :: d in fds && d.rhs > 0 && e == ZeroBased(d))
  }

  lemma ZeroBasedInjective(d: Fd, e: Fd)
    requires d.rhs > 0 && e.rhs > 0 && 0 !in d.lhs && 0 !in e.lhs
    requires ZeroBased(d) == ZeroBased(e)
    ensures d == e
  {
    forall c ensures c in d.lhs <==> c in e.lhs {
      assert c in d.lhs ==> c - 1 in ZeroBased(d).lhs;
      assert c in e.lhs ==> c - 1 in ZeroBased(e).lhs;
    }
    assert d.lhs == e.lhs;
  }

  lemma ListMore(list: seq<Fd>, fds: set<Fd>, more: seq<Fd>, items: set<Fd>)
    requires Lists(list, fds) && Lists(more, items) && fds !! items
    ensures Lists(list + more, fds + items)
  {
    forall i, j | 0 <= i < |list| && 0 <= j < |more| ensures list[i] != more[j] {
      assert list[i] in list && more[j] in more;
      var d :| d in fds && d.rhs > 0 && list[i] == ZeroBased(d);
      var e :| e in items && e.rhs > 0 && more[j] == ZeroBased(e);
      if list[i] == more[j] {
        ZeroBasedInjective(d, e);
      }
    }
  }

  lemma ListNothing()
    ensures Lists([], {})
  {
  }

  lemma ListOne(d: Fd)
    requires d.rhs > 0 && 0 !in d.lhs
    ensures Lists([ZeroBased(d)], {d})
  {
  }
}
