// RelationalSchema::CalculateHittingSet: minimal hitting sets by correcting the sets that miss a new vertical.
module HittingSets {
  import opened Relations
  import opened Bits
  import opened Options
  import opened Transversals
  import opened Corrections
  import opened SetTrieNodes
  import opened VerticalMaps

  ghost function PrunedBy(pruningFunction: Option<Vertical -> bool>): Vertical -> bool {
    if pruningFunction.Some? then pruningFunction.value else _ => false
  }

  ghost function Family(verticals: seq<Vertical>, i: nat): set<Vertical>
    requires i <= |verticals|
  {
    set v | v in verticals[..i]
  }

  ghost predicate SortedByArity(verticals: seq<Vertical>) {
    forall i, j :: 0 <= i < j < |verticals| ==> |verticals[i]| <= |verticals[j]|
  }

  // std::sort by the number of columns.
  method SortByArity(verticals: seq<Vertical>) returns (sorted: seq<Vertical>)
    ensures SortedByArity(sorted) && multiset(sorted) == multiset(verticals)
  {
    sorted := [];
    var i := 0;
    while i < |verticals|
      invariant 0 <= i <= |verticals| && SortedByArity(sorted) && multiset(sorted) == multiset(verticals[..i])
    {
      var j := 0;
      while j < |sorted| && |sorted[j]| <= |verticals[i]|
        invariant 0 <= j <= |sorted| && forall k :: 0 <= k < j ==> |sorted[k]| <= |verticals[i]|
      {
        j := j + 1;
      }
      assert verticals[..i + 1] == verticals[..i] + [verticals[i]];
      assert sorted == sorted[..j] + sorted[j..];
      sorted := sorted[..j] + [verticals[i]] + sorted[j..];
      i := i + 1;
    }
    assert verticals[..i] == verticals;
  }

  lemma SameMembers<T>(s: seq<T>, t: seq<T>)
    requires multiset(s) == multiset(t)
    ensures forall x :: x in s <==> x in t
  {
    forall x ensures x in s <==> x in t {
      assert x in s <==> x in multiset(s);
      assert x in t <==> x in multiset(t);
    }
  }

  // What the main loop keeps after the first i verticals.
  ghost predicate Progress(hitting: set<Vertical>, consolidated: set<Vertical>, family: set<Vertical>, pruned: Vertical -> bool) {
    && consolidated <= family && Refines(family, consolidated)
    && (UpwardClosed(pruned) ==> IsCover(hitting, consolidated, pruned))
  }

  lemma ProgressStart(pruned: Vertical -> bool)
    ensures Progress({{}}, {}, {}, pruned)
  {
    EmptyFamilyCover(pruned);
  }

  // A vertical that contains a consolidated one adds nothing.
  lemma ProgressSkip(hitting: set<Vertical>, consolidated: set<Vertical>, family: set<Vertical>, pruned: Vertical -> bool,
                     s: Vertical, t: Vertical)
    requires Progress(hitting, consolidated, family, pruned) && t in consolidated && t <= s
    ensures Progress(hitting, consolidated, family + {s}, pruned)
  {
  }

  lemma ProgressMore(hitting: set<Vertical>, consolidated: set<Vertical>, family: set<Vertical>, pruned: Vertical -> bool,
                     s: Vertical, next: set<Vertical>)
    requires Progress(hitting, consolidated, family, pruned)
    requires UpwardClosed(pruned) ==> IsCover(next, consolidated + {s}, pruned)
    ensures Progress(next, consolidated + {s}, family + {s}, pruned)
  {
    hide IsCover;
    RefinesMore(family, consolidated, s);
  }

  lemma RefinesMore(f: set<Vertical>, g: set<Vertical>, s: Vertical)
    requires Refines(f, g)
    ensures Refines(f + {s}, g + {s})
  {
    forall x | x in f + {s} ensures exists y :: y in g + {s} && y <= x {
      if x in f {
        var y :| y in g && y <= x;
        assert y in g + {s};
      } else {
        assert s in g + {s};
      }
    }
  }

  // The result is the cover of all verticals; without hitting sets left the rest cannot bring one back.
  lemma ProgressEnd(hitting: set<Vertical>, consolidated: set<Vertical>, family: set<Vertical>, whole: set<Vertical>,
                    pruned: Vertical -> bool)
    requires Progress(hitting, consolidated, family, pruned) && UpwardClosed(pruned) && family <= whole
    requires family == whole || (hitting == {} && family != {})
    ensures IsCover(hitting, whole, pruned)
  {
    hide Refines;
    SameCover(hitting, consolidated, family, pruned);
    if family != whole {
      forall x: Vertical | MinimalHitting(whole, x) ensures pruned(x) {
        FewerHits(family, whole, x);
        var y := MinimalHittingInside(family, x);
        assert pruned(y);
      }
    }
  }

  lemma FewerHits(family: set<Vertical>, whole: set<Vertical>, x: Vertical)
    requires family <= whole && MinimalHitting(whole, x)
    ensures Hits(family, x)
  {
  }

  lemma SameCover(hitting: set<Vertical>, consolidated: set<Vertical>, family: set<Vertical>, pruned: Vertical -> bool)
    requires Refines(family, consolidated) && consolidated <= family && IsCover(hitting, consolidated, pruned)
    ensures IsCover(hitting, family, pruned)
  {
    hide Refines, MinimalHitting, IsCover;
    SubfamilyRefines(consolidated, family);
    SameEmptiness(family, consolidated);
    SameMinimalHittingSets(consolidated, family);
    CoverOfSame(hitting, consolidated, family, pruned);
  }

  lemma CoverOfSame(hitting: set<Vertical>, f: set<Vertical>, g: set<Vertical>, pruned: Vertical -> bool)
    requires IsCover(hitting, f, pruned) && (f == {} <==> g == {})
    requires forall x: Vertical :: MinimalHitting(f, x) <==> MinimalHitting(g, x)
    ensures IsCover(hitting, g, pruned)
  {
    hide MinimalHitting;
  }

  lemma SubfamilyRefines(f: set<Vertical>, g: set<Vertical>)
    requires f <= g
    ensures Refines(f, g)
  {
  }

  lemma SameEmptiness(f: set<Vertical>, g: set<Vertical>)
    requires Refines(f, g) && g <= f
    ensures f == {} <==> g == {}
  {
    hide Refines;
    if f != {} {
      var s :| s in f;
      var t := MemberInside(f, g, s);
    }
  }

  lemma MemberInside(f: set<Vertical>, g: set<Vertical>, s: Vertical) returns (t: Vertical)
    requires Refines(f, g) && s in f
    ensures t in g && t <= s
  {
    t :| t in g && t <= s;
  }

  // ----- correcting the members that miss a vertical -----

  // The correction under way, provided that it started from a cover.
  ghost predicate Tracks(cover: set<Vertical>, family: set<Vertical>, s: Vertical, next: set<Vertical>,
                         pending: set<(Vertical, nat)>, pruned: Vertical -> bool) {
    IsCover(cover, family, pruned) ==> Correcting(cover, s, next, pending, pruned)
  }

  lemma TrackStart(cover: set<Vertical>, family: set<Vertical>, s: Vertical, pruned: Vertical -> bool)
    ensures Tracks(cover, family, s, cover, {}, pruned)
  {
    if IsCover(cover, family, pruned) {
      CorrectingStart(cover, family, s, pruned);
    }
  }

  lemma TrackRemove(cover: set<Vertical>, family: set<Vertical>, s: Vertical, next: set<Vertical>,
                    pending: set<(Vertical, nat)>, pruned: Vertical -> bool, x: Vertical)
    requires Tracks(cover, family, s, next, pending, pruned) && x in next && x in cover && x * s == {}
    ensures Tracks(cover, family, s, next - {x}, pending + (set b | b in s :: (x, b)), pruned)
  {
    hide IsCover, Correcting;
    if IsCover(cover, family, pruned) {
      CorrectingRemove(cover, family, s, next, pending, pruned, x);
    }
  }

  lemma TrackAdd(cover: set<Vertical>, family: set<Vertical>, s: Vertical, next: set<Vertical>,
                 pending: set<(Vertical, nat)>, pruned: Vertical -> bool, x: Vertical, b: nat)
    requires Tracks(cover, family, s, next, pending, pruned) && x in cover && x !in next && b in s
    ensures HasSubset(next, x + {b}) || pruned(x + {b}) ==> Tracks(cover, family, s, next, pending - {(x, b)}, pruned)
    ensures !HasSubset(next, x + {b}) && !pruned(x + {b}) ==>
      Tracks(cover, family, s, next + {x + {b}}, pending - {(x, b)}, pruned)
  {
    hide IsCover, Correcting, HasSubset;
    if IsCover(cover, family, pruned) {
      CorrectingAdd(cover, family, s, next, pending, pruned, x, b);
    }
  }

  lemma TrackEnd(cover: set<Vertical>, family: set<Vertical>, s: Vertical, next: set<Vertical>, pruned: Vertical -> bool)
    requires Tracks(cover, family, s, next, {}, pruned) && forall x :: x in next ==> x * s != {}
    ensures UpwardClosed(pruned) && IsCover(cover, family, pruned) ==> IsCover(next, family + {s}, pruned)
  {
    hide IsCover, Correcting;
    if UpwardClosed(pruned) && IsCover(cover, family, pruned) {
      CorrectingDone(cover, family, s, next, pruned);
    }
  }

  // Removes the members that miss the vertical.
  method RemoveInvalid(hittingSet: VerticalMap<Vertical>, invalid: seq<Vertical>, vertical: Vertical,
                       ghost family: set<Vertical>, ghost pruned: Vertical -> bool)
    requires hittingSet.Valid() && NoDuplicates(invalid)
    requires forall x :: x in invalid <==> x in hittingSet.Contents() && x * vertical == {}
    modifies hittingSet.Repr()
    ensures hittingSet.Valid() && hittingSet.Repr() == old(hittingSet.Repr())
    ensures Tracks(old(hittingSet.Contents().Keys), family, vertical, hittingSet.Contents().Keys,
      Pending(invalid, |invalid|, vertical), pruned)
    ensures forall x :: x in hittingSet.Contents() ==> x * vertical != {}
  {
    hide Tracks, Firsts, Pending, NoDuplicates, VerticalMap.Valid, VerticalMap.Contents;
    ghost var cover := hittingSet.Contents().Keys;
    TrackStart(cover, family, vertical, pruned);
    FirstsAll(invalid);
    var i := 0;
    while i < |invalid|
      invariant 0 <= i <= |invalid| && hittingSet.Valid() && hittingSet.Repr() == old(hittingSet.Repr())
      invariant hittingSet.Contents().Keys == cover - Firsts(invalid, i)
      invariant Tracks(cover, family, vertical, hittingSet.Contents().Keys, Pending(invalid, i, vertical), pruned)
    {
      FirstsStep(invalid, i);
      PendingStep(invalid, i, vertical);
      TrackRemove(cover, family, vertical, hittingSet.Contents().Keys, Pending(invalid, i, vertical), pruned, invalid[i]);
      hittingSet.KeysWithin();
      var _ := hittingSet.Remove(invalid[i]);
      i := i + 1;
    }
  }

  // Adds one corrected member unless a member already lies inside it or it is pruned.
  method AddCorrection(hittingSet: VerticalMap<Vertical>, invalidMember: Vertical, column: nat, vertical: Vertical,
                       pruningFunction: Option<Vertical -> bool>, ghost cover: set<Vertical>, ghost family: set<Vertical>,
                       ghost pending: set<(Vertical, nat)>)
    requires hittingSet.Valid() && Within(invalidMember, 0, hittingSet.numColumns) && column < hittingSet.numColumns
    requires Tracks(cover, family, vertical, hittingSet.Contents().Keys, pending, PrunedBy(pruningFunction))
    requires invalidMember in cover && invalidMember * vertical == {}
    requires column in vertical && forall x :: x in hittingSet.Contents() ==> x * vertical != {}
    modifies hittingSet.Repr()
    ensures hittingSet.Valid() && fresh(hittingSet.Repr() - old(hittingSet.Repr()))
    ensures Tracks(cover, family, vertical, hittingSet.Contents().Keys, pending - {(invalidMember, column)}, PrunedBy(pruningFunction))
    ensures forall x :: x in hittingSet.Contents() ==> x * vertical != {}
  {
    hide Tracks, VerticalMap.Valid, VerticalMap.Contents;
    ghost var next := hittingSet.Contents().Keys;
    var correctedMember := invalidMember + {column};
    TrackAdd(cover, family, vertical, next, pending, PrunedBy(pruningFunction), invalidMember, column);
    var entry := hittingSet.GetAnySubsetEntry(correctedMember, (k, v) => true);
    assert entry.Some? ==> HasSubset(next, correctedMember);
    if entry == None {
      assert !HasSubset(next, correctedMember);
      if pruningFunction.Some? && pruningFunction.value(correctedMember) {
        return;
      }
      assert column in correctedMember * vertical;
      assert !PrunedBy(pruningFunction)(correctedMember);
      var _ := hittingSet.Put(correctedMember, correctedMember);
      assert hittingSet.Contents().Keys == next + {correctedMember};
    }
  }

  // Corrects one member with the columns of the vertical in ascending order.
  method CorrectMember(hittingSet: VerticalMap<Vertical>, invalid: seq<Vertical>, i: nat, vertical: Vertical,
                       pruningFunction: Option<Vertical -> bool>, ghost cover: set<Vertical>, ghost family: set<Vertical>)
    requires hittingSet.Valid() && i < |invalid| && NoDuplicates(invalid)
    requires Within(invalid[i], 0, hittingSet.numColumns) && Within(vertical, 0, hittingSet.numColumns)
    requires Tracks(cover, family, vertical, hittingSet.Contents().Keys, Rest(invalid, i, 0, vertical), PrunedBy(pruningFunction))
    requires invalid[i] in cover && invalid[i] * vertical == {}
    requires forall x :: x in hittingSet.Contents() ==> x * vertical != {}
    modifies hittingSet.Repr()
    ensures hittingSet.Valid() && fresh(hittingSet.Repr() - old(hittingSet.Repr()))
    ensures Tracks(cover, family, vertical, hittingSet.Contents().Keys, Rest(invalid, i + 1, 0, vertical), PrunedBy(pruningFunction))
    ensures forall x :: x in hittingSet.Contents() ==> x * vertical != {}
  {
    hide Tracks, VerticalMap.Valid, VerticalMap.Contents, Rest, NoDuplicates;
    var n := hittingSet.numColumns;
    var column := FindFrom(vertical, 0, n);
    RestFirstColumn(invalid, i, column, vertical);
    while column < n
      invariant column <= n && (column < n ==> column in vertical)
      invariant hittingSet.Valid() && fresh(hittingSet.Repr() - old(hittingSet.Repr()))
      invariant Tracks(cover, family, vertical, hittingSet.Contents().Keys, Rest(invalid, i, column, vertical), PrunedBy(pruningFunction))
      invariant forall x :: x in hittingSet.Contents() ==> x * vertical != {}
      decreases n - column
    {
      var next := FindNext(vertical, column, n);
      RestNextColumn(invalid, i, column, next, vertical);
      AddCorrection(hittingSet, invalid[i], column, vertical, pruningFunction, cover, family, Rest(invalid, i, column, vertical));
      column := next;
    }
    RestNextMember(invalid, i, n, vertical);
  }

  // One vertical that contains no consolidated one.
  method Correct(hittingSet: VerticalMap<Vertical>, vertical: Vertical, pruningFunction: Option<Vertical -> bool>,
                 ghost family: set<Vertical>)
    requires hittingSet.Valid() && Within(vertical, 0, hittingSet.numColumns)
    modifies hittingSet.Repr()
    ensures hittingSet.Valid() && fresh(hittingSet.Repr() - old(hittingSet.Repr()))
    ensures UpwardClosed(PrunedBy(pruningFunction)) && IsCover(old(hittingSet.Contents().Keys), family, PrunedBy(pruningFunction)) ==>
      IsCover(hittingSet.Contents().Keys, family + {vertical}, PrunedBy(pruningFunction))
  {
    hide Tracks, IsCover, UpwardClosed, VerticalMap.Valid, VerticalMap.Contents, Rest, Pending, NoDuplicates, Within;
    hide SortedByArity;
    ghost var cover := hittingSet.Contents().Keys;
    hittingSet.KeysWithin();
    InvertWithin(vertical, hittingSet.numColumns);
    var subsetKeys := hittingSet.GetSubsetKeys(UpTo(hittingSet.numColumns) - vertical);
    InvertedSubsets(vertical, hittingSet.numColumns);
    var invalidMembers := SortByArity(subsetKeys);
    SameMembers(invalidMembers, subsetKeys);
    SameDistinct(invalidMembers, subsetKeys);
    RemoveInvalid(hittingSet, invalidMembers, vertical, family, PrunedBy(pruningFunction));
    RestStart(invalidMembers, vertical);
    CorrectMembers(hittingSet, invalidMembers, vertical, pruningFunction, cover, family);
    TrackEnd(cover, family, vertical, hittingSet.Contents().Keys, PrunedBy(pruningFunction));
  }

  method CorrectMembers(hittingSet: VerticalMap<Vertical>, invalid: seq<Vertical>, vertical: Vertical,
                        pruningFunction: Option<Vertical -> bool>, ghost cover: set<Vertical>, ghost family: set<Vertical>)
    requires hittingSet.Valid() && NoDuplicates(invalid) && Within(vertical, 0, hittingSet.numColumns)
    requires forall x :: x in invalid ==> x in cover && x * vertical == {} && Within(x, 0, hittingSet.numColumns)
    requires Tracks(cover, family, vertical, hittingSet.Contents().Keys, Rest(invalid, 0, 0, vertical), PrunedBy(pruningFunction))
    requires forall x :: x in hittingSet.Contents() ==> x * vertical != {}
    modifies hittingSet.Repr()
    ensures hittingSet.Valid() && fresh(hittingSet.Repr() - old(hittingSet.Repr()))
    ensures Tracks(cover, family, vertical, hittingSet.Contents().Keys, {}, PrunedBy(pruningFunction))
    ensures forall x :: x in hittingSet.Contents() ==> x * vertical != {}
  {
    hide Tracks, VerticalMap.Valid, VerticalMap.Contents, Rest, NoDuplicates, Within;
    var i := 0;
    while i < |invalid|
      invariant 0 <= i <= |invalid|
      invariant hittingSet.Valid() && fresh(hittingSet.Repr() - old(hittingSet.Repr()))
      invariant Tracks(cover, family, vertical, hittingSet.Contents().Keys, Rest(invalid, i, 0, vertical), PrunedBy(pruningFunction))
      invariant forall x :: x in hittingSet.Contents() ==> x * vertical != {}
    {
      assert invalid[i] in invalid;
      CorrectMember(hittingSet, invalid, i, vertical, pruningFunction, cover, family);
      i := i + 1;
    }
    RestNothing(invalid, vertical);
  }

  lemma InvertWithin(vertical: Vertical, n: nat)
    ensures Within(UpTo(n) - vertical, 0, n)
  {
  }

  lemma InvertedSubsets(vertical: Vertical, n: nat)
    ensures forall x :: Within(x, 0, n) ==> (x <= UpTo(n) - vertical <==> x * vertical == {})
  {
    forall x | Within(x, 0, n) ensures x <= UpTo(n) - vertical <==> x * vertical == {} {
      if x * vertical == {} {
        forall c | c in x ensures c !in vertical {
          assert c !in x * vertical;
        }
      }
    }
  }

  lemma SameDistinct<T>(s: seq<T>, t: seq<T>)
    requires multiset(s) == multiset(t) && NoDuplicates(t)
    ensures NoDuplicates(s)
  {
    DistinctCounts(t);
    forall j | 0 <= j < |s| ensures s[j] !in s[..j] {
      assert s == s[..j] + [s[j]] + s[j + 1..];
      assert multiset(s[..j])[s[j]] + 1 <= multiset(s)[s[j]];
    }
    forall i, j | 0 <= i < j < |s| ensures s[i] != s[j] {
      assert s[i] in s[..j];
    }
  }

  lemma {:induction false} DistinctCounts<T>(t: seq<T>)
    requires NoDuplicates(t)
    ensures forall x :: multiset(t)[x] <= 1
  {
    if t != [] {
      var init, last := t[..|t| - 1], t[|t| - 1];
      assert t == init + [last];
      DistinctCounts(init);
      assert last !in multiset(init);
    }
  }

  // One iteration of the main loop: true when there is no hitting set left.
  method AddVertical(consolidated: VerticalMap<Vertical>, hittingSet: VerticalMap<Vertical>, vertical: Vertical,
                     pruningFunction: Option<Vertical -> bool>, ghost family: set<Vertical>)
    returns (nothingLeft: bool)
    requires consolidated.Valid() && hittingSet.Valid() && consolidated.Repr() !! hittingSet.Repr()
    requires Within(vertical, 0, consolidated.numColumns) && consolidated.numColumns == hittingSet.numColumns
    requires Progress(hittingSet.Contents().Keys, consolidated.Contents().Keys, family, PrunedBy(pruningFunction))
    modifies consolidated.Repr(), hittingSet.Repr()
    ensures consolidated.Valid() && hittingSet.Valid() && consolidated.Repr() !! hittingSet.Repr()
    ensures fresh(consolidated.Repr() - old(consolidated.Repr())) && fresh(hittingSet.Repr() - old(hittingSet.Repr()))
    ensures Progress(hittingSet.Contents().Keys, consolidated.Contents().Keys, family + {vertical}, PrunedBy(pruningFunction))
    ensures nothingLeft ==> hittingSet.Contents() == map[]
  {
    hide IsCover, UpwardClosed, VerticalMap.Valid, VerticalMap.Contents, Progress, Within;
    ghost var hitting, kept := hittingSet.Contents().Keys, consolidated.Contents().Keys;
    var entry := consolidated.GetAnySubsetEntry(vertical, (k, v) => true);
    if entry.Some? {
      ProgressSkip(hitting, kept, family, PrunedBy(pruningFunction), vertical, entry.value.0);
      return false;
    }
    var _ := consolidated.Put(vertical, vertical);
    hittingSet.Untouched();
    label Kept:
    assert consolidated.Contents().Keys == kept + {vertical};
    Correct(hittingSet, vertical, pruningFunction, kept);
    consolidated.Untouched@Kept();
    ProgressCorrected(hitting, kept, family, PrunedBy(pruningFunction), vertical, hittingSet.Contents().Keys);
    nothingLeft := hittingSet.IsEmpty();
  }

  // The hitting sets that CalculateHittingSet returns, in whatever order the verticals come.
  method CalculateHittingSet(numColumns: nat, verticals: seq<Vertical>, pruningFunction: Option<Vertical -> bool>)
    returns (hittingSets: set<Vertical>)
    requires forall v :: v in verticals ==> Within(v, 0, numColumns)
    ensures UpwardClosed(PrunedBy(pruningFunction)) ==>
      IsCover(hittingSets, Family(verticals, |verticals|), PrunedBy(pruningFunction))
    ensures pruningFunction == None ==>
      forall x :: x in hittingSets <==> MinimalHitting(Family(verticals, |verticals|), x)
  {
    hide IsCover, UpwardClosed, VerticalMap.Valid, VerticalMap.Contents, Progress, Family, Within;
    hide SortedByArity, MinimalHitting;
    ghost var pruned := PrunedBy(pruningFunction);
    var sorted := SortByArity(verticals);
    SameMembers(sorted, verticals);
    SameFamily(sorted, verticals);
    var consolidated, hittingSet := StartMaps(numColumns, pruned);
    var i := 0;
    var nothingLeft := false;
    while i < |sorted| && !nothingLeft
      invariant 0 <= i <= |sorted|
      invariant consolidated.Valid() && hittingSet.Valid() && consolidated.Repr() !! hittingSet.Repr()
      invariant fresh(consolidated.Repr()) && fresh(hittingSet.Repr())
      invariant Progress(hittingSet.Contents().Keys, consolidated.Contents().Keys, Family(sorted, i), pruned)
      invariant nothingLeft ==> hittingSet.Contents() == map[] && i > 0
    {
      FamilyStep(sorted, i);
      nothingLeft := AddVertical(consolidated, hittingSet, sorted[i], pruningFunction, Family(sorted, i));
      i := i + 1;
    }
    hittingSets := hittingSet.KeySet();
    FamilyInside(sorted, i);
    if UpwardClosed(pruned) {
      ProgressEnd(hittingSets, consolidated.Contents().Keys, Family(sorted, i), Family(sorted, |sorted|), pruned);
    }
    if pruningFunction == None {
      NothingPruned(hittingSets, Family(verticals, |verticals|), pruned);
    }
  }

  // No vertical consolidated, and the empty set as the only hitting set.
  method StartMaps(numColumns: nat, ghost pruned: Vertical -> bool)
    returns (consolidated: VerticalMap<Vertical>, hittingSet: VerticalMap<Vertical>)
    ensures consolidated.Valid() && hittingSet.Valid() && consolidated.Repr() !! hittingSet.Repr()
    ensures fresh(consolidated.Repr()) && fresh(hittingSet.Repr())
    ensures consolidated.numColumns == hittingSet.numColumns == numColumns
    ensures Progress(hittingSet.Contents().Keys, consolidated.Contents().Keys, {}, pruned)
  {
    hide VerticalMap.Valid, VerticalMap.Contents, Progress, Within;
    hittingSet := new VerticalMap<Vertical>(numColumns);
    NothingWithin(numColumns);
    var _ := hittingSet.Put({}, {});
    label Put:
    consolidated := new VerticalMap<Vertical>(numColumns);
    hittingSet.Untouched@Put();
    ProgressStart(pruned);
    assert hittingSet.Contents().Keys == {{}} && consolidated.Contents().Keys == {};
  }

  lemma NothingWithin(n: nat)
    ensures Within({}, 0, n)
  {
  }

  lemma SameFamily(s: seq<Vertical>, t: seq<Vertical>)
    requires forall x :: x in s <==> x in t
    ensures Family(s, |s|) == Family(t, |t|) && Family(s, 0) == {}
  {
    assert s[..|s|] == s && t[..|t|] == t;
  }

  lemma FamilyStep(verticals: seq<Vertical>, i: nat)
    requires i < |verticals|
    ensures Family(verticals, i + 1) == Family(verticals, i) + {verticals[i]} && verticals[i] in verticals
  {
    assert verticals[..i + 1] == verticals[..i] + [verticals[i]];
  }

  lemma FamilyInside(verticals: seq<Vertical>, i: nat)
    requires i <= |verticals|
    ensures Family(verticals, i) <= Family(verticals, |verticals|) && (i > 0 ==> Family(verticals, i) != {})
  {
    assert verticals[..|verticals|] == verticals;
    if i > 0 {
      assert verticals[0] in verticals[..i];
      assert verticals[0] in Family(verticals, i);
    }
  }

  lemma ProgressCorrected(hitting: set<Vertical>, consolidated: set<Vertical>, family: set<Vertical>, pruned: Vertical -> bool,
                          s: Vertical, next: set<Vertical>)
    requires Progress(hitting, consolidated, family, pruned)
    requires UpwardClosed(pruned) && IsCover(hitting, consolidated, pruned) ==> IsCover(next, consolidated + {s}, pruned)
    ensures Progress(next, consolidated + {s}, family + {s}, pruned)
  {
    hide IsCover, Refines, UpwardClosed;
    ProgressMore(hitting, consolidated, family, pruned, s, next);
  }

  lemma NothingPruned(hitting: set<Vertical>, family: set<Vertical>, pruned: Vertical -> bool)
    requires pruned == PrunedBy(None)
    requires UpwardClosed(pruned) ==> IsCover(hitting, family, pruned)
    ensures forall x :: x in hitting <==> MinimalHitting(family, x)
  {
    hide MinimalHitting;
  }
}
