// The inclusion-maximal classes of all columns, computed in two ways.
module MaxRepresentations {
  import opened Relations
  import opened Partitions
  import opened PositionListIndexes

  ghost predicate Within(c: Cluster, d: Cluster) {
    Elements(c) <= Elements(d)
  }

  ghost predicate AreClasses(classes: set<Cluster>) {
    forall c :: c in classes ==> |c| >= 2 && Ascending(c)
  }

  // The classes that lie in no other class.
  ghost function Maximal(classes: set<Cluster>): set<Cluster> {
    set c | c in classes && forall d :: d in classes && Within(c, d) ==> d == c
  }

  ghost function AllClasses(columnData: seq<PositionListIndex>): set<Cluster> {
    set k, c | 0 <= k < |columnData| && c in columnData[k].index :: c
  }

  // ----- inclusion of ascending clusters -----

  lemma WithinIsSmaller(c: Cluster, d: Cluster)
    requires Ascending(c) && Ascending(d) && Within(c, d)
    ensures |c| <= |d|
    ensures |c| == |d| ==> c == d
  {
    AscendingDistinct(c);
    AscendingDistinct(d);
    SubsetSize(Elements(c), Elements(d));
    if |c| == |d| {
      assert forall j :: j in c <==> j in Elements(c);
      assert forall j :: j in d <==> j in Elements(d);
      AscendingUnique(c, d);
    }
  }

  lemma {:induction false} MaximalAbove(c: Cluster, classes: set<Cluster>) returns (d: Cluster)
    requires c in classes && AreClasses(classes)
    ensures d in Maximal(classes) && Within(c, d)
    decreases set e | e in classes && Within(c, e)
  {
    if e :| e in classes && Within(c, e) && e != c {
      if Within(e, c) {
        WithinIsSmaller(c, e);
        WithinIsSmaller(e, c);
        assert false;
      }
      var above := set f | f in classes && Within(e, f);
      assert forall f :: f in above ==> Within(c, f);
      assert c !in above && above < set f | f in classes && Within(c, f);
      d := MaximalAbove(e, classes);
    } else {
      d := c;
    }
  }

  // ----- the classes of all columns in the order of their sizes -----

  // std::set with a comparison that looks at the size first; ties are left open.
  ghost predicate IsSortedList(sorted: seq<Cluster>, classes: set<Cluster>, descending: bool) {
    && NoDuplicates(sorted) && (forall c :: c in sorted <==> c in classes)
    && forall i, j :: 0 <= i < j < |sorted| ==> if descending then |sorted[j]| <= |sorted[i]| else |sorted[i]| <= |sorted[j]|
  }

  ghost predicate ComesFirst(c: Cluster, rest: set<Cluster>, descending: bool) {
    c in rest && forall d :: d in rest ==> if descending then |d| <= |c| else |c| <= |d|
  }

  lemma {:induction false} HasFirst(rest: set<Cluster>, descending: bool) returns (c: Cluster)
    requires rest != {}
    ensures ComesFirst(c, rest, descending)
    decreases |rest|
  {
    c :| c in rest;
    var others := rest - {c};
    if others != {} {
      var d := HasFirst(others, descending);
      if !(if descending then |d| <= |c| else |c| <= |d|) {
        c := d;
      }
    }
  }

  method GenSortedEqvClasses(columnData: seq<PositionListIndex>, descending: bool) returns (sorted: seq<Cluster>)
    ensures IsSortedList(sorted, AllClasses(columnData), descending)
  {
    var classes: set<Cluster> := {};
    var k := 0;
    while k < |columnData|
      invariant 0 <= k <= |columnData| && classes == AllClasses(columnData[..k])
    {
      ClassesMore(columnData, k);
      classes := classes + set c | c in columnData[k].index;
      k := k + 1;
    }
    assert columnData[..|columnData|] == columnData;
    var rest := classes;
    sorted := [];
    while rest != {}
      invariant rest <= classes && IsSortedList(sorted, classes - rest, descending)
      invariant forall d :: d in rest ==> forall i :: 0 <= i < |sorted| ==> if descending then |d| <= |sorted[i]| else |sorted[i]| <= |d|
      decreases |rest|
    {
      ghost var first := HasFirst(rest, descending);
      var c :| c in rest && forall d :: d in rest ==> if descending then |d| <= |c| else |c| <= |d|;
      SortedMore(sorted, classes, rest, c, descending);
      sorted := sorted + [c];
      rest := rest - {c};
    }
    assert classes - rest == classes;
  }

  lemma ClassesMore(columnData: seq<PositionListIndex>, k: nat)
    requires k < |columnData|
    ensures AllClasses(columnData[..k + 1]) == AllClasses(columnData[..k]) + set c | c in columnData[k].index
  {
    var before, after := columnData[..k], columnData[..k + 1];
    forall c ensures c in AllClasses(after) <==> c in AllClasses(before) || c in columnData[k].index {
      if c in AllClasses(before) {
        var l :| 0 <= l < k && c in before[l].index;
        assert after[l] == before[l];
      }
      if c in columnData[k].index {
        assert c in after[k].index;
      }
      if c in AllClasses(after) {
        var l :| 0 <= l < k + 1 && c in after[l].index;
        assert l < k ==> before[l] == after[l];
      }
    }
  }

  lemma SortedMore(sorted: seq<Cluster>, classes: set<Cluster>, rest: set<Cluster>, c: Cluster, descending: bool)
    requires rest <= classes && c in rest && IsSortedList(sorted, classes - rest, descending)
    requires forall i :: 0 <= i < |sorted| ==> if descending then |c| <= |sorted[i]| else |sorted[i]| <= |c|
    ensures IsSortedList(sorted + [c], classes - (rest - {c}), descending)
  {
    assert c !in sorted;
  }

  // ----- handlePartition: largest classes first, with an index from rows to the classes taken -----

  // index maps each row to the numbers of the taken classes that have it.
  ghost predicate IsIndex(index: map<nat, set<nat>>, sorted: seq<Cluster>, taken: set<nat>) {
    && (forall id :: id in taken ==> id < |sorted|)
    && (forall row, id :: row in index && id in index[row] ==> id in taken && row in sorted[id])
    && (forall id, row :: id in taken && row in sorted[id] ==> row in index && id in index[row])
    && (forall row :: row in index ==> index[row] != {})
  }

  ghost function Supersets(c: Cluster, sorted: seq<Cluster>, taken: set<nat>): set<nat>
    requires forall id :: id in taken ==> id < |sorted|
  {
    set id | id in taken && Within(c, sorted[id])
  }

  method IsSubset(eqvClass: Cluster, index: map<nat, set<nat>>, ghost sorted: seq<Cluster>, ghost taken: set<nat>)
    returns (subset: bool)
    requires eqvClass != [] && IsIndex(index, sorted, taken)
    ensures subset <==> exists id :: id in taken && Within(eqvClass, sorted[id])
  {
    var intersection: set<nat> := {};
    var k := 0;
    while k < |eqvClass|
      invariant 0 <= k <= |eqvClass|
      invariant k == 0 ==> intersection == {}
      invariant k > 0 ==> intersection == Supersets(eqvClass[..k], sorted, taken) != {}
    {
      var row := eqvClass[k];
      SupersetsStep(eqvClass, k, index, sorted, taken);
      if row !in index {
        NoSuperset(eqvClass, k + 1, sorted, taken);
        return false;
      }
      if intersection == {} {
        intersection := index[row];
      }
      intersection := intersection * index[row];
      if intersection == {} {
        NoSuperset(eqvClass, k + 1, sorted, taken);
        return false;
      }
      k := k + 1;
    }
    assert eqvClass[..k] == eqvClass;
    ghost var id :| id in Supersets(eqvClass, sorted, taken);
    return true;
  }

  lemma SupersetsStep(c: Cluster, k: nat, index: map<nat, set<nat>>, sorted: seq<Cluster>, taken: set<nat>)
    requires k < |c| && IsIndex(index, sorted, taken)
    ensures c[k] !in index ==> Supersets(c[..k + 1], sorted, taken) == {}
    ensures c[k] in index ==> Supersets(c[..k + 1], sorted, taken) == Supersets(c[..k], sorted, taken) * index[c[k]]
    ensures c[k] in index && k == 0 ==> Supersets(c[..k + 1], sorted, taken) == index[c[k]]
  {
    var row := c[k];
    assert c[..k + 1] == c[..k] + [row];
    assert Elements(c[..k + 1]) == Elements(c[..k]) + {row};
    assert k == 0 ==> Elements(c[..k]) == {};
    forall id | id in taken ensures row in Elements(sorted[id]) <==> row in index && id in index[row] {
    }
  }

  lemma NoSuperset(c: Cluster, k: nat, sorted: seq<Cluster>, taken: set<nat>)
    requires k <= |c| && (forall id :: id in taken ==> id < |sorted|) && Supersets(c[..k], sorted, taken) == {}
    ensures forall id :: id in taken ==> !Within(c, sorted[id])
  {
    assert Elements(c[..k]) <= Elements(c);
    forall id | id in taken ensures !Within(c, sorted[id]) {
      assert id !in Supersets(c[..k], sorted, taken);
    }
  }

  method EnterClass(eqvClass: Cluster, id: nat, index: map<nat, set<nat>>, ghost sorted: seq<Cluster>, ghost taken: set<nat>)
    returns (updated: map<nat, set<nat>>)
    requires IsIndex(index, sorted, taken) && id < |sorted| && id !in taken && sorted[id] == eqvClass
    ensures IsIndex(updated, sorted, taken + {id})
  {
    updated := index;
    var k := 0;
    while k < |eqvClass|
      invariant 0 <= k <= |eqvClass|
      invariant forall row, i :: row in updated && i in updated[row] ==>
        (row in index && i in index[row]) || (i == id && row in eqvClass[..k])
      invariant forall row :: row in index ==> row in updated && index[row] <= updated[row]
      invariant forall j :: 0 <= j < k ==> eqvClass[j] in updated && id in updated[eqvClass[j]]
      invariant forall row :: row in updated ==> updated[row] != {}
    {
      var row := eqvClass[k];
      assert eqvClass[..k + 1] == eqvClass[..k] + [row];
      updated := updated[row := (if row in updated then updated[row] else {}) + {id}];
      k := k + 1;
    }
  }

  ghost predicate LiesInTaken(c: Cluster, taken: set<nat>, sorted: seq<Cluster>) {
    exists id :: id in taken && id < |sorted| && Within(c, sorted[id])
  }

  ghost predicate IsTakenSet(rep: set<Cluster>, taken: set<nat>, sorted: seq<Cluster>) {
    forall c :: c in rep <==> exists id :: id in taken && id < |sorted| && sorted[id] == c
  }

  // What has been taken after the first n classes: the maximal ones among them, and every one lies in a taken one.
  ghost predicate TookMaximal(rep: set<Cluster>, taken: set<nat>, sorted: seq<Cluster>, n: nat)
    requires n <= |sorted|
  {
    && (forall id :: id in taken ==> id < n)
    && IsTakenSet(rep, taken, sorted)
    && (forall i :: 0 <= i < n ==> LiesInTaken(sorted[i], taken, sorted))
    && (forall i, j :: i in taken && 0 <= j < n && i != j ==> !Within(sorted[i], sorted[j]))
  }

  method GenMcUsingHandlePartition(columnData: seq<PositionListIndex>) returns (maxRepresentation: set<Cluster>)
    requires AreClasses(AllClasses(columnData))
    ensures maxRepresentation == Maximal(AllClasses(columnData))
  {
    hide IsIndex, TookMaximal, IsSortedList, AllClasses;
    var sorted := GenSortedEqvClasses(columnData, true);
    SortedAreClasses(sorted, AllClasses(columnData), true);
    maxRepresentation := {};
    var index: map<nat, set<nat>> := map[];
    ghost var taken: set<nat> := {};
    NothingTaken(sorted);
    var n := 0;
    while n < |sorted|
      invariant 0 <= n <= |sorted| && IsIndex(index, sorted, taken) && TookMaximal(maxRepresentation, taken, sorted, n)
    {
      var subset := IsSubset(sorted[n], index, sorted, taken);
      TakeStep(maxRepresentation, taken, sorted, n, AllClasses(columnData));
      assert subset <==> LiesInTaken(sorted[n], taken, sorted);
      if !subset {
        index := EnterClass(sorted[n], n, index, sorted, taken);
        taken := taken + {n};
        maxRepresentation := maxRepresentation + {sorted[n]};
      }
      n := n + 1;
    }
    AllTaken(maxRepresentation, taken, sorted, AllClasses(columnData));
  }

  lemma SortedAreClasses(sorted: seq<Cluster>, classes: set<Cluster>, descending: bool)
    requires IsSortedList(sorted, classes, descending) && AreClasses(classes)
    ensures forall i :: 0 <= i < |sorted| ==> |sorted[i]| >= 2 && Ascending(sorted[i]) && sorted[i] in classes
  {
    forall i | 0 <= i < |sorted| ensures |sorted[i]| >= 2 && Ascending(sorted[i]) && sorted[i] in classes {
      assert sorted[i] in sorted;
    }
  }

  lemma NothingTaken(sorted: seq<Cluster>)
    ensures IsIndex(map[], sorted, {}) && TookMaximal({}, {}, sorted, 0)
  {
  }

  // A class no larger than the earlier ones lies in no other class unless it lies in a taken one.
  lemma TakeStep(rep: set<Cluster>, taken: set<nat>, sorted: seq<Cluster>, n: nat, classes: set<Cluster>)
    requires n < |sorted| && TookMaximal(rep, taken, sorted, n)
    requires IsSortedList(sorted, classes, true) && AreClasses(classes)
    ensures n !in taken && forall id :: id in taken ==> id < |sorted|
    ensures LiesInTaken(sorted[n], taken, sorted) ==> TookMaximal(rep, taken, sorted, n + 1)
    ensures !LiesInTaken(sorted[n], taken, sorted) ==> TookMaximal(rep + {sorted[n]}, taken + {n}, sorted, n + 1)
  {
    SortedAreClasses(sorted, classes, true);
    hide Within, LiesInTaken, IsTakenSet, AreClasses;
    forall i: nat | i < n ensures !Within(sorted[i], sorted[n]) {
      if Within(sorted[i], sorted[n]) {
        WithinIsSmaller(sorted[i], sorted[n]);
      }
    }
    if !LiesInTaken(sorted[n], taken, sorted) {
      forall j: nat | j < n ensures !Within(sorted[n], sorted[j]) {
        LiesFurther(sorted[n], sorted[j], taken, sorted);
      }
      forall i | 0 <= i < n + 1 ensures LiesInTaken(sorted[i], taken + {n}, sorted) {
        LiesInMore(sorted[i], taken, sorted, n);
      }
      RepMore(rep, taken, sorted, n);
    }
  }

  lemma LiesFurther(c: Cluster, d: Cluster, taken: set<nat>, sorted: seq<Cluster>)
    requires LiesInTaken(d, taken, sorted)
    ensures Within(c, d) ==> LiesInTaken(c, taken, sorted)
  {
    hide Within;
    var id :| id in taken && id < |sorted| && Within(d, sorted[id]);
    if Within(c, d) {
      WithinTransitive(c, d, sorted[id]);
    }
  }

  lemma LiesInMore(c: Cluster, taken: set<nat>, sorted: seq<Cluster>, n: nat)
    requires n < |sorted|
    ensures LiesInTaken(c, taken, sorted) || c == sorted[n] ==> LiesInTaken(c, taken + {n}, sorted)
  {
    hide Within;
    WithinSelf(c);
    if id :| id in taken && id < |sorted| && Within(c, sorted[id]) {
      assert id in taken + {n};
    }
    assert n in taken + {n};
  }

  lemma RepMore(rep: set<Cluster>, taken: set<nat>, sorted: seq<Cluster>, n: nat)
    requires n < |sorted| && IsTakenSet(rep, taken, sorted)
    ensures IsTakenSet(rep + {sorted[n]}, taken + {n}, sorted)
  {
    forall c ensures c in rep + {sorted[n]} <==> exists id :: id in taken + {n} && id < |sorted| && sorted[id] == c {
      if c in rep {
        var id :| id in taken && id < |sorted| && sorted[id] == c;
        assert id in taken + {n};
      }
      if c == sorted[n] {
        assert n in taken + {n};
      }
    }
  }

  lemma WithinSelf(c: Cluster)
    ensures Within(c, c)
  {
  }

  lemma WithinTransitive(c: Cluster, d: Cluster, e: Cluster)
    requires Within(c, d) && Within(d, e)
    ensures Within(c, e)
  {
  }

  lemma AllTaken(rep: set<Cluster>, taken: set<nat>, sorted: seq<Cluster>, classes: set<Cluster>)
    requires TookMaximal(rep, taken, sorted, |sorted|) && IsSortedList(sorted, classes, true)
    ensures rep == Maximal(classes)
  {
    hide Within;
    forall c | c in rep ensures c in Maximal(classes) {
      var i :| i in taken && i < |sorted| && sorted[i] == c;
      assert sorted[i] in sorted;
      forall d | d in classes && Within(c, d) ensures d == c {
        var j :| 0 <= j < |sorted| && sorted[j] == d;
      }
    }
    forall c | c in Maximal(classes) ensures c in rep {
      var i :| 0 <= i < |sorted| && sorted[i] == c;
      assert LiesInTaken(sorted[i], taken, sorted);
      var id :| id in taken && id < |sorted| && Within(sorted[i], sorted[id]);
      assert sorted[id] in sorted;
    }
  }

  // ----- handleEqvClass: smallest classes first, looking up all subsets -----

  ghost predicate Bucketed(maxSets: map<nat, set<Cluster>>) {
    forall k, c :: k in maxSets && c in maxSets[k] ==> |c| == k && k >= 2 && Ascending(c)
  }

  ghost function Family(maxSets: map<nat, set<Cluster>>): set<Cluster> {
    set k, c | k in maxSets && c in maxSets[k] :: c
  }

  ghost predicate IsAntichain(family: set<Cluster>) {
    forall c, d :: c in family && d in family && Within(c, d) ==> c == d
  }

  function Dropped(c: Cluster, i: nat): (copy: Cluster)
    requires i < |c|
    ensures |copy| == |c| - 1
  {
    c[..i] + c[i + 1..]
  }

  ghost function NotBelow(family: set<Cluster>, c: Cluster, i: nat): set<Cluster>
    requires i <= |c|
  {
    set s | s in family && forall j :: 0 <= j < i ==> !Within(s, Dropped(c, j))
  }

  lemma DroppedIs(c: Cluster, i: nat)
    requires i < |c| && Ascending(c)
    ensures Ascending(Dropped(c, i)) && Elements(Dropped(c, i)) == Elements(c) - {c[i]}
  {
    var copy := Dropped(c, i);
    forall p, q | 0 <= p < q < |copy| ensures copy[p] < copy[q] {
      assert copy[p] == c[if p < i then p else p + 1] && copy[q] == c[if q < i then q else q + 1];
    }
    hide Ascending;
    forall row ensures row in copy <==> row in c && row != c[i] {
      DroppedMember(c, i, row);
    }
  }

  lemma DroppedMember(c: Cluster, i: nat, row: nat)
    requires i < |c| && Ascending(c)
    ensures row in Dropped(c, i) <==> row in c && row != c[i]
  {
    var first, second := c[..i], c[i + 1..];
    assert c == first + [c[i]] + second;
    assert c[i] !in first && c[i] !in second;
  }

  // The proper subsets of a class are the subsets of the class with one row dropped.
  lemma BelowMeansDropped(c: Cluster, s: Cluster)
    requires Ascending(c) && Ascending(s)
    ensures Within(s, c) && s != c <==> exists j :: 0 <= j < |c| && Within(s, Dropped(c, j))
  {
    if Within(s, c) && s != c {
      if forall j :: 0 <= j < |c| ==> c[j] in s {
        assert Within(c, s);
        WithinIsSmaller(c, s);
        WithinIsSmaller(s, c);
        assert false;
      }
      var j :| 0 <= j < |c| && c[j] !in s;
      DroppedIs(c, j);
      assert Within(s, Dropped(c, j));
    }
    if j :| 0 <= j < |c| && Within(s, Dropped(c, j)) {
      DroppedIs(c, j);
      assert c[j] in Elements(c);
    }
  }

  // Without the proper subsets of a class.
  ghost function WithoutBelow(family: set<Cluster>, c: Cluster): set<Cluster> {
    set s | s in family && !(Within(s, c) && s != c)
  }

  lemma FamilyErase(maxSets: map<nat, set<Cluster>>, c: Cluster)
    requires Bucketed(maxSets) && |c| in maxSets && c in maxSets[|c|]
    ensures var erased := maxSets[|c| := maxSets[|c|] - {c}]; Bucketed(erased) && Family(erased) == Family(maxSets) - {c}
  {
    var erased := maxSets[|c| := maxSets[|c|] - {c}];
    forall s ensures s in Family(erased) <==> s in Family(maxSets) - {c} {
      if s in Family(maxSets) - {c} {
        var k :| k in maxSets && s in maxSets[k];
        assert k in erased && s in erased[k];
      }
      if s in Family(erased) {
        var k :| k in erased && s in erased[k];
        assert k in maxSets && s in maxSets[k];
      }
    }
  }

  lemma FamilyInsert(maxSets: map<nat, set<Cluster>>, c: Cluster)
    requires Bucketed(maxSets) && |c| >= 2 && Ascending(c)
    ensures var more := maxSets[|c| := (if |c| in maxSets then maxSets[|c|] else {}) + {c}];
      Bucketed(more) && Family(more) == Family(maxSets) + {c}
  {
    var more := maxSets[|c| := (if |c| in maxSets then maxSets[|c|] else {}) + {c}];
    forall s ensures s in Family(more) <==> s in Family(maxSets) + {c} {
      if s in Family(maxSets) {
        var k :| k in maxSets && s in maxSets[k];
        assert k in more && s in more[k];
      }
      if s == c {
        assert |c| in more && c in more[|c|];
      }
    }
  }

  lemma InFamily(maxSets: map<nat, set<Cluster>>, c: Cluster)
    requires Bucketed(maxSets)
    ensures c in Family(maxSets) <==> |c| in maxSets && c in maxSets[|c|]
    ensures forall s :: s in Family(maxSets) ==> |s| >= 2 && Ascending(s)
  {
  }

  // Removes every proper subset of a class that is in the family.
  method RemoveBelow(eqvClass: Cluster, maxSets: map<nat, set<Cluster>>) returns (result: map<nat, set<Cluster>>)
    requires Bucketed(maxSets) && IsAntichain(Family(maxSets)) && Ascending(eqvClass) && |eqvClass| >= 2
    ensures Bucketed(result) && Family(result) == WithoutBelow(Family(maxSets), eqvClass)
    decreases |eqvClass|
  {
    hide Bucketed, IsAntichain, Within, Elements;
    ghost var family := Family(maxSets);
    result := maxSets;
    NothingBelowYet(family, eqvClass);
    var i := 0;
    while i < |eqvClass|
      invariant 0 <= i <= |eqvClass| && Bucketed(result) && Family(result) == NotBelow(family, eqvClass, i)
    {
      var copy := Dropped(eqvClass, i);
      DroppedIs(eqvClass, i);
      InFamily(result, copy);
      NotBelowStep(family, eqvClass, i, Family(result));
      if |copy| in result && copy in result[|copy|] {
        FamilyErase(result, copy);
        result := result[|copy| := result[|copy|] - {copy}];
      } else if |copy| > 2 {
        result := RemoveBelow(copy, result);
      }
      i := i + 1;
    }
    InFamily(maxSets, eqvClass);
    AllBelow(family, eqvClass);
  }

  lemma NothingBelowYet(family: set<Cluster>, c: Cluster)
    ensures NotBelow(family, c, 0) == family
  {
  }

  lemma NotBelowStep(family: set<Cluster>, c: Cluster, i: nat, current: set<Cluster>)
    requires i < |c| && Ascending(c) && IsAntichain(family) && current == NotBelow(family, c, i)
    requires forall s :: s in current ==> |s| >= 2 && Ascending(s)
    ensures IsAntichain(current)
    ensures Dropped(c, i) in current ==> NotBelow(family, c, i + 1) == current - {Dropped(c, i)}
    ensures Dropped(c, i) !in current ==> NotBelow(family, c, i + 1) == WithoutBelow(current, Dropped(c, i))
    ensures Dropped(c, i) !in current && |c| <= 3 ==> NotBelow(family, c, i + 1) == current
  {
    var copy := Dropped(c, i);
    hide Elements;
    DroppedIs(c, i);
    WithinSelf(copy);
    forall s ensures s in NotBelow(family, c, i + 1) <==> s in current && !Within(s, copy) {
    }
    if copy !in current && |c| <= 3 {
      forall s | s in current ensures !Within(s, copy) {
        if Within(s, copy) {
          WithinIsSmaller(s, copy);
        }
      }
    }
  }

  lemma AllBelow(family: set<Cluster>, c: Cluster)
    requires Ascending(c) && forall s :: s in family ==> Ascending(s)
    ensures NotBelow(family, c, |c|) == WithoutBelow(family, c)
  {
    hide Within;
    forall s | s in family ensures s in NotBelow(family, c, |c|) <==> s in WithoutBelow(family, c) {
      BelowMeansDropped(c, s);
    }
  }

  method HandleEqvClass(eqvClass: Cluster, maxSets: map<nat, set<Cluster>>) returns (result: map<nat, set<Cluster>>)
    requires Bucketed(maxSets) && IsAntichain(Family(maxSets)) && Ascending(eqvClass) && |eqvClass| >= 2
    ensures Bucketed(result) && Family(result) == WithoutBelow(Family(maxSets), eqvClass) + {eqvClass}
  {
    hide Bucketed, IsAntichain;
    result := RemoveBelow(eqvClass, maxSets);
    FamilyInsert(result, eqvClass);
    result := result[|eqvClass| := (if |eqvClass| in result then result[|eqvClass|] else {}) + {eqvClass}];
  }

  ghost function FirstClasses(sorted: seq<Cluster>, n: nat): set<Cluster>
    requires n <= |sorted|
  {
    set c | c in sorted[..n]
  }

  // The classes of the smallest size, which are taken as they are.
  method SmallestClasses(sorted: seq<Cluster>) returns (n: nat, minSet: set<Cluster>)
    requires sorted != [] && forall i :: 0 <= i < |sorted| ==> |sorted[i]| >= 2 && Ascending(sorted[i])
    ensures n <= |sorted| && minSet == FirstClasses(sorted, n)
    ensures forall c :: c in minSet ==> |c| == |sorted[0]| && Ascending(c)
  {
    hide Ascending;
    n, minSet := 0, {};
    while n < |sorted| && |sorted[n]| == |sorted[0]|
      invariant 0 <= n <= |sorted| && minSet == FirstClasses(sorted, n)
      invariant forall c :: c in minSet ==> |c| == |sorted[0]| && Ascending(c)
    {
      assert sorted[..n + 1] == sorted[..n] + [sorted[n]];
      minSet := minSet + {sorted[n]};
      n := n + 1;
    }
  }

  method GenMcUsingHandleEqvClass(columnData: seq<PositionListIndex>) returns (maxRepresentation: set<Cluster>)
    requires AreClasses(AllClasses(columnData))
    ensures maxRepresentation == Maximal(AllClasses(columnData))
  {
    hide Bucketed, IsSortedList, AllClasses, Maximal, AreClasses, IsAntichain, WithoutBelow, FirstClasses, Ascending, Family;
    var sorted := GenSortedEqvClasses(columnData, false);
    ghost var classes := AllClasses(columnData);
    SortedAreClasses(sorted, classes, false);
    if sorted == [] {
      NoClasses(sorted, classes);
      return {};
    }
    var n, minSet := SmallestClasses(sorted);
    var maxSets: map<nat, set<Cluster>> := map[|sorted[0]| := minSet];
    EqualSizes(minSet, |sorted[0]|);
    while n < |sorted|
      invariant 0 <= n <= |sorted| && Bucketed(maxSets)
      invariant Family(maxSets) == Maximal(FirstClasses(sorted, n))
    {
      MaximalStep(sorted, n, classes);
      maxSets := HandleEqvClass(sorted[n], maxSets);
      n := n + 1;
    }
    AllClassesDone(sorted, classes);
    maxRepresentation := MergeResult(maxSets);
  }

  method MergeResult(maxSets: map<nat, set<Cluster>>) returns (merged: set<Cluster>)
    ensures merged == Family(maxSets)
  {
    merged := {};
    var rest := maxSets.Keys;
    while rest != {}
      invariant rest <= maxSets.Keys && merged == set k, c | k in maxSets && k !in rest && c in maxSets[k] :: c
      decreases |rest|
    {
      var k :| k in rest;
      merged := merged + maxSets[k];
      rest := rest - {k};
    }
  }

  lemma NoClasses(sorted: seq<Cluster>, classes: set<Cluster>)
    requires IsSortedList(sorted, classes, false) && sorted == []
    ensures Maximal(classes) == {}
  {
  }

  lemma EqualSizes(minSet: set<Cluster>, size: nat)
    requires size >= 2 && forall c :: c in minSet ==> |c| == size && Ascending(c)
    ensures Bucketed(map[size := minSet]) && Family(map[size := minSet]) == Maximal(minSet)
  {
    hide Within;
    forall c, d | c in minSet && d in minSet && Within(c, d) ensures c == d {
      WithinIsSmaller(c, d);
    }
    var m := map[size := minSet];
    forall c | c in minSet ensures c in Family(m) {
      assert size in m && c in m[size];
    }
  }

  lemma AllClassesDone(sorted: seq<Cluster>, classes: set<Cluster>)
    requires IsSortedList(sorted, classes, false)
    ensures FirstClasses(sorted, |sorted|) == classes
  {
    assert sorted[..|sorted|] == sorted;
  }

  // A class at least as large as the earlier ones replaces the earlier maximal ones inside it.
  lemma MaximalStep(sorted: seq<Cluster>, n: nat, classes: set<Cluster>)
    requires n < |sorted| && IsSortedList(sorted, classes, false) && AreClasses(classes)
    ensures IsAntichain(Maximal(FirstClasses(sorted, n)))
    ensures Maximal(FirstClasses(sorted, n + 1)) == WithoutBelow(Maximal(FirstClasses(sorted, n)), sorted[n]) + {sorted[n]}
  {
    hide Within;
    SortedAreClasses(sorted, classes, false);
    var before, c := FirstClasses(sorted, n), sorted[n];
    assert sorted[..n + 1] == sorted[..n] + [c];
    assert FirstClasses(sorted, n + 1) == before + {c};
    forall d | d in before ensures !Within(c, d) && d != c {
      var i :| 0 <= i < n && sorted[i] == d;
      if Within(c, d) {
        WithinIsSmaller(c, d);
      }
    }
  }
}
