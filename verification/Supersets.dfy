// The third way to the maximal classes: one column after the other, comparing each kept class with the new ones. A kept
// class stops looking at the first new class inside it, so that new classes can be lost.
module Supersets {
  import opened Relations
  import opened Bits
  import opened Partitions
  import opened PositionListIndexes
  import opened MaxRepresentations

  // What one pass has noted: new classes to add and those found inside a kept one, by their places, and kept classes to drop.
  datatype Notes = Notes(toAdd: set<nat>, excluded: set<nat>, toDelete: set<Cluster>)

  // std::includes on ascending clusters.
  predicate Includes(d: Cluster, c: Cluster)
    ensures Includes(d, c) <==> Within(c, d)
  {
    assert forall i :: i in c <==> i in Elements(c);
    assert forall i :: i in d <==> i in Elements(d);
    forall i :: i in c ==> i in d
  }

  // A new class that does not lie inside a kept one is to be added, and replaces the kept one if it contains it.
  function Noted(kept: Cluster, partition: seq<Cluster>, k: nat, notes: Notes): Notes
    requires k < |partition|
  {
    var dropped := |partition[k]| >= |kept| && Includes(partition[k], kept);
    notes.(toAdd := notes.toAdd + {k}, toDelete := if dropped then notes.toDelete + {kept} else notes.toDelete)
  }

  // One kept class against the new classes from place k on.
  function Compared(kept: Cluster, partition: seq<Cluster>, k: nat, notes: Notes): Notes
    decreases |partition| - k
  {
    if k >= |partition| then notes
    else if k in notes.excluded then Compared(kept, partition, k + 1, notes)
    else if |kept| >= |partition[k]| && Includes(kept, partition[k]) then
      notes.(toAdd := notes.toAdd - {k}, excluded := notes.excluded + {k})
    else
      Compared(kept, partition, k + 1, Noted(kept, partition, k, notes))
  }

  // All kept classes, in the order in which the hash set gives them.
  function AllCompared(order: seq<Cluster>, partition: seq<Cluster>): Notes {
    if order == [] then Notes({}, {}, {}) else
      Compared(order[|order| - 1], partition, 0, AllCompared(order[..|order| - 1], partition))
  }

  function Added(toAdd: set<nat>, partition: seq<Cluster>): set<Cluster> {
    set k | k in toAdd && k < |partition| :: partition[k]
  }

  function Outcome(kept: set<Cluster>, partition: seq<Cluster>, notes: Notes): set<Cluster> {
    kept + Added(notes.toAdd, partition) - notes.toDelete
  }

  ghost predicate IsOrder(order: seq<Cluster>, kept: set<Cluster>) {
    NoDuplicates(order) && forall c :: c in order <==> c in kept
  }

  // Whether some kept class came to look at the new class at a place.
  predicate LookedAt(k: nat, notes: Notes) {
    k in notes.toAdd || k in notes.excluded
  }

  ghost function Lost(notes: Notes, partition: seq<Cluster>): set<Cluster> {
    set k: nat | k < |partition| && !LookedAt(k, notes) :: partition[k]
  }

  ghost function Found(notes: Notes, partition: seq<Cluster>): set<Cluster> {
    set k: nat | k < |partition| && LookedAt(k, notes) :: partition[k]
  }

  ghost predicate Covered(c: Cluster, classes: set<Cluster>) {
    exists d :: d in classes && Within(c, d)
  }

  method CompareOne(kept: Cluster, partition: seq<Cluster>, notes: Notes) returns (updated: Notes)
    ensures updated == Compared(kept, partition, 0, notes)
  {
    updated := notes;
    var k := 0;
    while k < |partition|
      invariant 0 <= k <= |partition|
      invariant Compared(kept, partition, k, updated) == Compared(kept, partition, 0, notes)
    {
      if k !in updated.excluded {
        if |kept| >= |partition[k]| && Includes(kept, partition[k]) {
          return updated.(toAdd := updated.toAdd - {k}, excluded := updated.excluded + {k});
        }
        if |partition[k]| >= |kept| && Includes(partition[k], kept) {
          updated := updated.(toDelete := updated.toDelete + {kept});
        }
        updated := updated.(toAdd := updated.toAdd + {k});
      }
      k := k + 1;
    }
  }

  // What a pass may make of the kept classes, in some order of the hash set.
  ghost predicate MayBecome(kept: set<Cluster>, partition: seq<Cluster>, updated: set<Cluster>) {
    exists order :: IsOrder(order, kept) && updated == Outcome(kept, partition, AllCompared(order, partition))
  }

  method CalculateSupersets(maxRepresentation: set<Cluster>, partition: seq<Cluster>) returns (updated: set<Cluster>)
    ensures MayBecome(maxRepresentation, partition, updated)
  {
    hide Compared;
    var notes := Notes({}, {}, {});
    var rest := maxRepresentation;
    ghost var order := [];
    while rest != {}
      invariant rest <= maxRepresentation && IsOrder(order, maxRepresentation - rest)
      invariant notes == AllCompared(order, partition)
      decreases |rest|
    {
      var kept :| kept in rest;
      notes := CompareOne(kept, partition, notes);
      assert (order + [kept])[..|order|] == order;
      order, rest := order + [kept], rest - {kept};
    }
    assert maxRepresentation - rest == maxRepresentation;
    updated := Outcome(maxRepresentation, partition, notes);
  }

  // ----- what a pass keeps and loses -----

  ghost predicate AreDisjoint(partition: seq<Cluster>) {
    && (forall k :: 0 <= k < |partition| ==> partition[k] != [] && Ascending(partition[k]))
    && forall k, l :: 0 <= k < l < |partition| ==> Elements(partition[k]) !! Elements(partition[l])
  }

  // Excluded classes lie inside a kept one, a kept class is dropped only for a larger new one that was to be added, and a
  // class to be added is not excluded.
  ghost predicate NotesFit(notes: Notes, kept: set<Cluster>, partition: seq<Cluster>) {
    && notes.toAdd !! notes.excluded
    && (forall k :: k in notes.toAdd ==> k < |partition|)
    && (forall k :: k in notes.excluded ==> k < |partition| && Covered(partition[k], kept))
    && (forall c :: c in notes.toDelete ==> c in kept && DroppedFor(c, notes, partition))
  }

  ghost predicate DroppedFor(c: Cluster, notes: Notes, partition: seq<Cluster>) {
    exists k :: 0 <= k < |partition| && (k in notes.toAdd || k in notes.excluded) && Within(c, partition[k]) && !Within(partition[k], c)
  }

  lemma {:induction false} ComparedFits(c: Cluster, partition: seq<Cluster>, k: nat, notes: Notes, kept: set<Cluster>)
    requires NotesFit(notes, kept, partition) && c in kept && AreDisjoint(partition) && Ascending(c)
    ensures NotesFit(Compared(c, partition, k, notes), kept, partition)
    ensures notes.toAdd + notes.excluded <= Compared(c, partition, k, notes).toAdd + Compared(c, partition, k, notes).excluded
    decreases |partition| - k
  {
    if k < |partition| {
      if k in notes.excluded {
        ComparedFits(c, partition, k + 1, notes, kept);
      } else if |c| >= |partition[k]| && Includes(c, partition[k]) {
        var updated := notes.(toAdd := notes.toAdd - {k}, excluded := notes.excluded + {k});
        assert Covered(partition[k], kept);
        StillDropped(notes, updated, partition);
      } else {
        var updated := Noted(c, partition, k, notes);
        if Within(partition[k], c) {
          WithinIsSmaller(partition[k], c);
        }
        StillDropped(notes, updated, partition);
        ComparedFits(c, partition, k + 1, updated, kept);
      }
    }
  }

  lemma StillDropped(notes: Notes, updated: Notes, partition: seq<Cluster>)
    requires notes.toAdd + notes.excluded <= updated.toAdd + updated.excluded
    ensures forall c :: DroppedFor(c, notes, partition) ==> DroppedFor(c, updated, partition)
  {
    hide Within;
    forall c | DroppedFor(c, notes, partition) ensures DroppedFor(c, updated, partition) {
      var k :| 0 <= k < |partition| && (k in notes.toAdd || k in notes.excluded) && Within(c, partition[k]) && !Within(partition[k], c);
      assert k in notes.toAdd + notes.excluded;
    }
  }

  lemma {:induction false} AllComparedFit(order: seq<Cluster>, partition: seq<Cluster>, kept: set<Cluster>)
    requires AreDisjoint(partition) && forall c :: c in order ==> c in kept && Ascending(c)
    ensures NotesFit(AllCompared(order, partition), kept, partition)
  {
    hide Compared;
    if order != [] {
      AllComparedFit(order[..|order| - 1], partition, kept);
      ComparedFits(order[|order| - 1], partition, 0, AllCompared(order[..|order| - 1], partition), kept);
    }
  }

  // Kept classes stay covered.
  lemma {:induction false} KeptStaysCovered(c: Cluster, kept: set<Cluster>, partition: seq<Cluster>, notes: Notes)
    requires NotesFit(notes, kept, partition) && AreDisjoint(partition) && AreClasses(kept) && c in kept
    ensures Covered(c, Outcome(kept, partition, notes))
    decreases set e | e in kept && Within(c, e)
  {
    hide Within, Elements;
    if c !in notes.toDelete {
      WithinSelf(c);
    } else {
      var k :| 0 <= k < |partition| && (k in notes.toAdd || k in notes.excluded) && Within(c, partition[k]) && !Within(partition[k], c);
      var d := partition[k];
      if k in notes.excluded || d in kept {
        WithinSelf(d);
        var e :| e in kept && Within(d, e);
        WithinTransitive(c, d, e);
        if Within(e, c) {
          WithinTransitive(d, e, c);
        }
        FewerAbove(c, e, kept);
        KeptStaysCovered(e, kept, partition, notes);
        CoveredBelow(c, e, Outcome(kept, partition, notes));
      } else {
        assert d in Added(notes.toAdd, partition) && d !in notes.toDelete;
      }
    }
  }

  lemma FewerAbove(c: Cluster, e: Cluster, kept: set<Cluster>)
    requires c in kept && Within(c, e) && !Within(e, c)
    ensures (set f | f in kept && Within(e, f)) < set f | f in kept && Within(c, f)
  {
    var above := set f | f in kept && Within(e, f);
    hide Within;
    forall f | f in above ensures Within(c, f) {
      WithinTransitive(c, e, f);
    }
    WithinSelf(c);
    assert c !in above;
  }

  lemma CoveredBelow(c: Cluster, e: Cluster, classes: set<Cluster>)
    requires Within(c, e) && Covered(e, classes)
    ensures Covered(c, classes)
  {
    hide Within;
    var f :| f in classes && Within(e, f);
    WithinTransitive(c, e, f);
  }

  // Exactly the lost classes that no kept class covers are left out.
  lemma NewIsCovered(k: nat, kept: set<Cluster>, partition: seq<Cluster>, notes: Notes)
    requires NotesFit(notes, kept, partition) && AreDisjoint(partition) && AreClasses(kept) && k < |partition|
    ensures Covered(partition[k], Outcome(kept, partition, notes)) <==>
      k in notes.toAdd || k in notes.excluded || Covered(partition[k], kept)
  {
    hide Within, Elements;
    var c, outcome := partition[k], Outcome(kept, partition, notes);
    if Covered(c, kept) {
      var d :| d in kept && Within(c, d);
      KeptStaysCovered(d, kept, partition, notes);
      CoveredBelow(c, d, outcome);
    } else if k in notes.toAdd {
      WithinSelf(c);
      assert c in Added(notes.toAdd, partition) && c !in kept;
    }
    if Covered(c, outcome) && !Covered(c, kept) {
      var d :| d in outcome && Within(c, d);
      var l :| l in notes.toAdd && l < |partition| && d == partition[l];
      OneOfDisjoint(partition, k, l);
    }
  }

  lemma OneOfDisjoint(partition: seq<Cluster>, k: nat, l: nat)
    requires AreDisjoint(partition) && k < |partition| && l < |partition| && Within(partition[k], partition[l])
    ensures k == l
  {
    var i := partition[k][0];
    assert i in Elements(partition[k]) && i in Elements(partition[l]);
  }

  // ----- which classes a pass can lose -----

  // A kept class stops at a new class inside it.
  predicate StopsAt(kept: Cluster, partition: seq<Cluster>, l: nat) {
    l < |partition| && |kept| >= |partition[l]| && Includes(kept, partition[l])
  }

  // Each kept class is sent to a place of its own before k at which it stops.
  ghost predicate StopBefore(places: map<Cluster, nat>, kept: set<Cluster>, partition: seq<Cluster>, k: nat) {
    && places.Keys == kept
    && (forall c :: c in kept ==> places[c] < k && StopsAt(c, partition, places[c]))
    && forall c, d :: c in kept && d in kept && c != d ==> places[c] != places[d]
  }

  ghost predicate LostIn(order: seq<Cluster>, kept: set<Cluster>, partition: seq<Cluster>, k: nat) {
    IsOrder(order, kept) && !LookedAt(k, AllCompared(order, partition))
  }

  // Looking only adds to what has been looked at.
  lemma {:induction false} LooksOn(c: Cluster, partition: seq<Cluster>, from: nat, notes: Notes, k: nat)
    requires LookedAt(k, notes)
    ensures LookedAt(k, Compared(c, partition, from, notes))
    decreases |partition| - from
  {
    if from < |partition| {
      if from in notes.excluded {
        LooksOn(c, partition, from + 1, notes, k);
      } else if !StopsAt(c, partition, from) {
        LooksOn(c, partition, from + 1, Noted(c, partition, from, notes), k);
      }
    }
  }

  // A kept class that does not look at place k stops before it, at a place that no other one has stopped at.
  lemma {:induction false} StoppedBefore(c: Cluster, partition: seq<Cluster>, from: nat, notes: Notes, k: nat) returns (l: nat)
    requires from <= k < |partition| && !LookedAt(k, Compared(c, partition, from, notes))
    ensures from <= l < k && l !in notes.excluded && StopsAt(c, partition, l)
    ensures Compared(c, partition, from, notes).excluded == notes.excluded + {l}
    decreases |partition| - from
  {
    if from in notes.excluded {
      if from == k {
        LooksOn(c, partition, from, notes, k);
      }
      l := StoppedBefore(c, partition, from + 1, notes, k);
    } else if StopsAt(c, partition, from) {
      l := from;
    } else {
      var noted := Noted(c, partition, from, notes);
      if from == k {
        LooksOn(c, partition, from + 1, noted, k);
      }
      l := StoppedBefore(c, partition, from + 1, noted, k);
    }
  }

  // In an order that loses place k the places of the stops are a way of sending the kept classes.
  lemma {:induction false} StopsOf(order: seq<Cluster>, partition: seq<Cluster>, k: nat) returns (places: map<Cluster, nat>)
    requires NoDuplicates(order) && k < |partition| && !LookedAt(k, AllCompared(order, partition))
    ensures StopBefore(places, Members(order), partition, k)
    ensures forall c :: c in places ==> places[c] in AllCompared(order, partition).excluded
  {
    hide Compared, StopsAt;
    if order == [] {
      places := map[];
    } else {
      var init, last := order[..|order| - 1], order[|order| - 1];
      assert order == init + [last] && last !in init && Members(order) == Members(init) + {last};
      var notes := AllCompared(init, partition);
      if LookedAt(k, notes) {
        LooksOn(last, partition, 0, notes, k);
      }
      var before := StopsOf(init, partition, k);
      var l := StoppedBefore(last, partition, 0, notes, k);
      places := before[last := l];
    }
  }

  ghost function Members(order: seq<Cluster>): set<Cluster> {
    set c | c in order
  }

  // The comparisons in order, starting from given notes.
  function ComparedFrom(order: seq<Cluster>, partition: seq<Cluster>, notes: Notes): Notes {
    if order == [] then notes else ComparedFrom(order[1..], partition, Compared(order[0], partition, 0, notes))
  }

  lemma {:induction false} ComparedFromAppend(order: seq<Cluster>, c: Cluster, partition: seq<Cluster>, notes: Notes)
    ensures ComparedFrom(order + [c], partition, notes) == Compared(c, partition, 0, ComparedFrom(order, partition, notes))
  {
    hide Compared;
    if order == [] {
      assert ([] + [c])[1..] == [];
    } else {
      assert (order + [c])[1..] == order[1..] + [c];
      ComparedFromAppend(order[1..], c, partition, Compared(order[0], partition, 0, notes));
    }
  }

  lemma {:induction false} AllComparedFrom(order: seq<Cluster>, partition: seq<Cluster>)
    ensures AllCompared(order, partition) == ComparedFrom(order, partition, Notes({}, {}, {}))
  {
    hide Compared;
    if order != [] {
      var init, last := order[..|order| - 1], order[|order| - 1];
      assert order == init + [last];
      AllComparedFrom(init, partition);
      ComparedFromAppend(init, last, partition, Notes({}, {}, {}));
    }
  }

  // A kept class stops at its first free place, and has looked at nothing behind it.
  lemma {:induction false} StopsAtFirst(c: Cluster, partition: seq<Cluster>, from: nat, notes: Notes, l: nat)
    requires from <= l && l !in notes.excluded && StopsAt(c, partition, l)
    requires forall j :: from <= j < l && StopsAt(c, partition, j) ==> j in notes.excluded
    ensures Compared(c, partition, from, notes).excluded == notes.excluded + {l}
    ensures forall k :: k > l && k in Compared(c, partition, from, notes).toAdd ==> k in notes.toAdd
    decreases |partition| - from
  {
    if from in notes.excluded {
      StopsAtFirst(c, partition, from + 1, notes, l);
    } else if !StopsAt(c, partition, from) {
      StopsAtFirst(c, partition, from + 1, Noted(c, partition, from, notes), l);
    }
  }

  // The free places before k at which some of the kept classes stops.
  ghost function FreePlaces(rest: set<Cluster>, partition: seq<Cluster>, k: nat, excluded: set<nat>): set<nat> {
    set l: nat, c | c in rest && l < k && l !in excluded && StopsAt(c, partition, l) :: l
  }

  // The first free place of all, and a kept class that stops there first: the one that is sent there, or any when none is.
  lemma FirstStop(rest: set<Cluster>, partition: seq<Cluster>, k: nat, excluded: set<nat>, places: map<Cluster, nat>)
    returns (c: Cluster, l: nat)
    requires rest != {} && StopBefore(places, rest, partition, k) && forall d :: d in rest ==> places[d] !in excluded
    ensures c in rest && l < k && l !in excluded && StopsAt(c, partition, l)
    ensures forall j: nat :: j < l && StopsAt(c, partition, j) ==> j in excluded
    ensures forall d :: d in rest && d != c ==> places[d] != l
  {
    hide StopsAt;
    var free := FreePlaces(rest, partition, k, excluded);
    var any :| any in rest;
    assert places[any] in free;
    l := Min(free);
    c :| c in rest && StopsAt(c, partition, l);
    if d :| d in rest && places[d] == l {
      c := d;
    }
    forall j: nat | j < l && StopsAt(c, partition, j) ensures j in excluded {
      assert j !in excluded ==> j in free;
    }
  }

  // Sent to free places before k, the kept classes can be put in an order in which all of them stop before k.
  lemma {:induction false} OrderThatLoses(rest: set<Cluster>, partition: seq<Cluster>, k: nat, notes: Notes, places: map<Cluster, nat>)
    returns (order: seq<Cluster>)
    requires StopBefore(places, rest, partition, k) && !LookedAt(k, notes)
    requires forall c :: c in rest ==> places[c] !in notes.excluded
    ensures IsOrder(order, rest) && !LookedAt(k, ComparedFrom(order, partition, notes))
    decreases rest
  {
    hide Compared, StopsAt, StopBefore, IsOrder;
    SentAll(places, rest, partition, k);
    if rest == {} {
      order := [];
      assert IsOrder(order, rest) by {
        NoOrder();
      }
    } else {
      var c, l := FirstStop(rest, partition, k, notes.excluded, places);
      var updated := Compared(c, partition, 0, notes);
      StopsAtFirst(c, partition, 0, notes, l);
      FewerSent(places, rest, partition, k, c);
      var others := OrderThatLoses(rest - {c}, partition, k, updated, map d | d in rest - {c} :: places[d]);
      order := [c] + others;
      OneBefore(others, rest, c);
    }
  }

  lemma SentAll(places: map<Cluster, nat>, kept: set<Cluster>, partition: seq<Cluster>, k: nat)
    requires StopBefore(places, kept, partition, k)
    ensures places.Keys == kept
  {
  }

  lemma NoOrder()
    ensures IsOrder([], {})
  {
  }

  lemma FewerSent(places: map<Cluster, nat>, kept: set<Cluster>, partition: seq<Cluster>, k: nat, c: Cluster)
    requires StopBefore(places, kept, partition, k)
    ensures StopBefore(map d | d in kept - {c} :: places[d], kept - {c}, partition, k)
  {
  }

  lemma OneBefore(others: seq<Cluster>, kept: set<Cluster>, c: Cluster)
    requires c in kept && IsOrder(others, kept - {c})
    ensures IsOrder([c] + others, kept) && ([c] + others)[1..] == others
  {
    var order := [c] + others;
    assert c !in others && order[1..] == others;
    assert forall d :: d in order <==> d == c || d in others;
  }

  // A new class is lost in some order of the kept classes exactly when each of these can be sent to a place of its own
  // before that of the new class, with a new class inside it.
  lemma LostInSomeOrder(kept: set<Cluster>, partition: seq<Cluster>, k: nat)
    requires k < |partition|
    ensures (exists order :: LostIn(order, kept, partition, k)) <==> exists places :: StopBefore(places, kept, partition, k)
  {
    hide StopBefore, Compared;
    if order :| LostIn(order, kept, partition, k) {
      assert Members(order) == kept;
      var places := StopsOf(order, partition, k);
    }
    if places :| StopBefore(places, kept, partition, k) {
      var order := OrderThatLoses(kept, partition, k, Notes({}, {}, {}), places);
      AllComparedFrom(order, partition);
      assert LostIn(order, kept, partition, k);
    }
  }

  // ----- all columns -----

  // What the columns so far leave: the kept classes, those that some pass has found, and those that some pass has lost.
  datatype Run = Run(rep: set<Cluster>, found: set<Cluster>, lost: set<Cluster>)

  ghost function ClassesOf(partition: seq<Cluster>): set<Cluster> {
    set c | c in partition
  }

  ghost predicate NothingBefore(columnData: seq<PositionListIndex>, n: nat)
    requires n <= |columnData|
  {
    forall k :: 0 <= k < n ==> columnData[k].index == []
  }

  // run is a way through the columns before n, for some order of the hash set in each pass; the first column with classes
  // is taken as it is.
  ghost predicate RunsTo(columnData: seq<PositionListIndex>, n: nat, run: Run)
    requires n <= |columnData|
    decreases n, 1
  {
    if n == 0 then run == Run({}, {}, {})
    else exists before :: RunsThrough(columnData, n, before, run)
  }

  ghost predicate RunsThrough(columnData: seq<PositionListIndex>, n: nat, before: Run, run: Run)
    requires 0 < n <= |columnData|
    decreases n, 0
  {
    RunsTo(columnData, n - 1, before) && PassesTo(columnData, n - 1, before, run)
  }

  ghost predicate PassesTo(columnData: seq<PositionListIndex>, n: nat, before: Run, run: Run)
    requires n < |columnData|
  {
    var partition := columnData[n].index;
    if partition == [] then run == before
    else if NothingBefore(columnData, n) then run == Run(ClassesOf(partition), ClassesOf(partition), {})
    else exists order :: IsOrder(order, before.rep) && run == AfterPass(before, order, partition)
  }

  ghost function AfterPass(before: Run, order: seq<Cluster>, partition: seq<Cluster>): Run {
    var notes := AllCompared(order, partition);
    Run(Outcome(before.rep, partition, notes), before.found + Found(notes, partition), before.lost + Lost(notes, partition))
  }

  ghost predicate AreColumns(columnData: seq<PositionListIndex>) {
    && AreClasses(AllClasses(columnData))
    && forall k :: 0 <= k < |columnData| ==> AreDisjoint(columnData[k].index) && (columnData[k].size == 0 <==> columnData[k].index == [])
  }

  // The classes that some way through all columns leaves.
  ghost predicate MayLeave(columnData: seq<PositionListIndex>, rep: set<Cluster>) {
    exists run: Run :: RunsTo(columnData, |columnData|, run) && run.rep == rep
  }

  method GenMcUsingCalculateSupersets(columnData: seq<PositionListIndex>) returns (rep: set<Cluster>)
    requires AreColumns(columnData)
    ensures MayLeave(columnData, rep)
  {
    hide AllClasses, AreDisjoint, RunsTo, PassesTo, Outcome;
    ghost var run := Run({}, {}, {});
    rep := {};
    var first := 0;
    RunsFirst(columnData);
    while first < |columnData| && columnData[first].size == 0
      invariant 0 <= first <= |columnData|
      invariant NothingBefore(columnData, first) && RunsTo(columnData, first, run)
    {
      RunsOverEmpty(columnData, first, run);
      first := first + 1;
    }
    if first == |columnData| {
      return;
    }
    rep := set c | c in columnData[first].index;
    RunsFrom(columnData, first, run);
    run := Run(rep, rep, {});
    var n := first + 1;
    while n < |columnData|
      invariant first < n <= |columnData|
      invariant RunsTo(columnData, n, run) && run.rep == rep
    {
      assert columnData[first].size != 0;
      if columnData[n].size == 0 {
        RunsOverEmpty(columnData, n, run);
      } else {
        rep := CalculateSupersets(rep, columnData[n].index);
        ghost var order :| IsOrder(order, run.rep) && rep == Outcome(run.rep, columnData[n].index, AllCompared(order, columnData[n].index));
        RunsOn(columnData, first, n, run, order);
        run := AfterPass(run, order, columnData[n].index);
      }
      n := n + 1;
    }
  }

  lemma RunsFirst(columnData: seq<PositionListIndex>)
    ensures RunsTo(columnData, 0, Run({}, {}, {}))
  {
  }

  lemma RunsOverEmpty(columnData: seq<PositionListIndex>, n: nat, run: Run)
    requires n < |columnData| && columnData[n].index == [] && RunsTo(columnData, n, run)
    ensures RunsTo(columnData, n + 1, run)
  {
    assert RunsThrough(columnData, n + 1, run, run);
  }

  lemma RunsFrom(columnData: seq<PositionListIndex>, first: nat, before: Run)
    requires first < |columnData| && columnData[first].index != [] && NothingBefore(columnData, first)
    requires RunsTo(columnData, first, before)
    ensures var classes := ClassesOf(columnData[first].index); RunsTo(columnData, first + 1, Run(classes, classes, {}))
  {
    var classes := ClassesOf(columnData[first].index);
    assert RunsThrough(columnData, first + 1, before, Run(classes, classes, {}));
  }

  lemma RunsOn(columnData: seq<PositionListIndex>, first: nat, n: nat, before: Run, order: seq<Cluster>)
    requires first < n < |columnData| && columnData[first].index != [] && columnData[n].index != []
    requires RunsTo(columnData, n, before) && IsOrder(order, before.rep)
    ensures RunsTo(columnData, n + 1, AfterPass(before, order, columnData[n].index))
  {
    hide AfterPass, IsOrder;
    assert !NothingBefore(columnData, n);
    assert RunsThrough(columnData, n + 1, before, AfterPass(before, order, columnData[n].index));
  }

  // ----- what every run keeps, finds and loses -----

  ghost function ClassesBefore(columnData: seq<PositionListIndex>, n: nat): set<Cluster>
    requires n <= |columnData|
  {
    set k, c | 0 <= k < n && c in columnData[k].index :: c
  }

  lemma ClassesBeforeNext(columnData: seq<PositionListIndex>, n: nat)
    requires n < |columnData|
    ensures ClassesBefore(columnData, n + 1) == ClassesBefore(columnData, n) + ClassesOf(columnData[n].index)
    ensures ClassesBefore(columnData, n) <= AllClasses(columnData)
    ensures ClassesBefore(columnData, |columnData|) == AllClasses(columnData)
  {
  }

  // The found and the lost classes are all; the kept ones are among the found ones and cover them.
  ghost predicate RunFits(run: Run, classes: set<Cluster>) {
    && run.rep <= run.found && run.found + run.lost == classes
    && forall c :: c in run.found ==> Covered(c, run.rep)
  }

  lemma {:induction false} EveryRunFits(columnData: seq<PositionListIndex>, n: nat, run: Run)
    requires n <= |columnData| && AreColumns(columnData) && RunsTo(columnData, n, run)
    ensures RunFits(run, ClassesBefore(columnData, n))
    decreases n
  {
    hide Covered, AreDisjoint, AllClasses, AfterPass, ClassesBefore;
    if n == 0 {
      NoClassesBefore(columnData);
    } else {
      var before :| RunsThrough(columnData, n, before, run);
      EveryRunFits(columnData, n - 1, before);
      ClassesBeforeNext(columnData, n - 1);
      var partition := columnData[n - 1].index;
      if partition == [] {
        assert ClassesOf(partition) == {};
      } else if NothingBefore(columnData, n - 1) {
        NothingYet(columnData, n - 1);
        AllCoverThemselves(run.rep);
      } else {
        var order :| IsOrder(order, before.rep) && run == AfterPass(before, order, partition);
        PassFits(before, order, partition, ClassesBefore(columnData, n - 1));
      }
    }
  }

  lemma NoClassesBefore(columnData: seq<PositionListIndex>)
    ensures ClassesBefore(columnData, 0) == {}
  {
  }

  lemma NothingYet(columnData: seq<PositionListIndex>, n: nat)
    requires n <= |columnData| && NothingBefore(columnData, n)
    ensures ClassesBefore(columnData, n) == {}
  {
  }

  lemma AllCoverThemselves(classes: set<Cluster>)
    ensures forall c :: c in classes ==> Covered(c, classes)
  {
    hide Within;
    forall c | c in classes ensures Covered(c, classes) {
      WithinSelf(c);
    }
  }

  // One pass keeps what was covered, and covers what it finds.
  lemma PassFits(before: Run, order: seq<Cluster>, partition: seq<Cluster>, classes: set<Cluster>)
    requires RunFits(before, classes) && AreClasses(classes) && IsOrder(order, before.rep) && AreDisjoint(partition)
    ensures RunFits(AfterPass(before, order, partition), classes + ClassesOf(partition))
  {
    hide AllCompared, Covered, AreDisjoint, NotesFit, Ascending;
    var notes := AllCompared(order, partition);
    var run := AfterPass(before, order, partition);
    AllComparedFit(order, partition, before.rep);
    FoundAndLost(notes, partition);
    forall c | c in before.rep ensures Covered(c, run.rep) {
      KeptStaysCovered(c, before.rep, partition, notes);
    }
    forall c | c in run.found ensures Covered(c, run.rep) {
      if c in before.found {
        StaysCovered(c, before.rep, run.rep);
      } else {
        var k: nat :| k < |partition| && LookedAt(k, notes) && partition[k] == c;
        NewIsCovered(k, before.rep, partition, notes);
      }
    }
    AddedAreFound(notes, partition);
  }

  lemma FoundAndLost(notes: Notes, partition: seq<Cluster>)
    ensures Found(notes, partition) + Lost(notes, partition) == ClassesOf(partition)
  {
    forall c | c in partition ensures c in Found(notes, partition) + Lost(notes, partition) {
      var k :| 0 <= k < |partition| && partition[k] == c;
      assert LookedAt(k, notes) || !LookedAt(k, notes);
    }
  }

  lemma AddedAreFound(notes: Notes, partition: seq<Cluster>)
    ensures Added(notes.toAdd, partition) <= Found(notes, partition)
  {
    forall k | k in notes.toAdd && k < |partition| ensures partition[k] in Found(notes, partition) {
      assert LookedAt(k, notes);
    }
  }

  lemma StaysCovered(c: Cluster, before: set<Cluster>, rep: set<Cluster>)
    requires Covered(c, before) && forall d :: d in before ==> Covered(d, rep)
    ensures Covered(c, rep)
  {
    var d :| d in before && Within(c, d);
    CoveredBelow(c, d, rep);
  }

  // A run covers exactly the classes that lie inside found ones, and all classes exactly when the lost ones do.
  lemma RunCovers(columnData: seq<PositionListIndex>, run: Run)
    requires AreColumns(columnData) && RunsTo(columnData, |columnData|, run)
    ensures run.rep <= run.found && run.found + run.lost == AllClasses(columnData)
    ensures forall c :: Covered(c, run.rep) <==> Covered(c, run.found)
    ensures (forall c :: c in AllClasses(columnData) ==> Covered(c, run.rep)) <==> forall c :: c in run.lost ==> Covered(c, run.found)
  {
    hide Within, AreColumns, RunsTo;
    EveryRunFits(columnData, |columnData|, run);
    if columnData == [] {
      assert AllClasses(columnData) == {} == ClassesBefore(columnData, 0);
    } else {
      ClassesBeforeNext(columnData, 0);
    }
    forall c | Covered(c, run.found) ensures Covered(c, run.rep) {
      StaysCovered(c, run.found, run.rep);
    }
  }

  // ----- which kept classes a pass drops -----

  // What is to be dropped stays so.
  lemma {:induction false} DropsOn(c: Cluster, partition: seq<Cluster>, from: nat, notes: Notes)
    ensures notes.toDelete <= Compared(c, partition, from, notes).toDelete
    decreases |partition| - from
  {
    if from < |partition| {
      if from in notes.excluded {
        DropsOn(c, partition, from + 1, notes);
      } else if !StopsAt(c, partition, from) {
        DropsOn(c, partition, from + 1, Noted(c, partition, from, notes));
      }
    }
  }

  // A kept class that stops nowhere before place k is dropped for a larger new class there that no other has excluded.
  lemma {:induction false} DropsAt(c: Cluster, partition: seq<Cluster>, from: nat, notes: Notes, k: nat)
    requires from <= k < |partition| && k !in notes.excluded && forall l :: from <= l <= k ==> !StopsAt(c, partition, l)
    requires |partition[k]| >= |c| && Includes(partition[k], c)
    ensures c in Compared(c, partition, from, notes).toDelete
    decreases k - from
  {
    if from in notes.excluded {
      DropsAt(c, partition, from + 1, notes, k);
    } else if from < k {
      assert !StopsAt(c, partition, from);
      DropsAt(c, partition, from + 1, Noted(c, partition, from, notes), k);
    } else {
      var noted := Noted(c, partition, k, notes);
      DropsOn(c, partition, k + 1, noted);
      assert c in noted.toDelete && !StopsAt(c, partition, k);
    }
  }

  // A class inside a larger new one has no new class inside it.
  lemma NoStopInside(c: Cluster, partition: seq<Cluster>, k: nat)
    requires AreDisjoint(partition) && k < |partition| && Within(c, partition[k]) && !Within(partition[k], c)
    ensures forall l: nat :: !StopsAt(c, partition, l)
  {
    forall l: nat | StopsAt(c, partition, l) ensures false {
      WithinTransitive(partition[l], c, partition[k]);
      OneOfDisjoint(partition, l, k);
    }
  }

  // Whatever the order, a kept class is dropped when a larger new class lies inside no kept one.
  lemma {:induction false} DroppedForLarger(order: seq<Cluster>, kept: set<Cluster>, partition: seq<Cluster>, c: Cluster, k: nat)
    requires AreDisjoint(partition) && AreClasses(kept) && (forall d :: d in order ==> d in kept) && c in order
    requires k < |partition| && Within(c, partition[k]) && !Within(partition[k], c) && !Covered(partition[k], kept)
    ensures c in AllCompared(order, partition).toDelete
  {
    hide Within, Covered;
    var n := |order| - 1;
    var others, last := order[..n], order[n];
    var notes := AllCompared(others, partition);
    if c in others {
      DroppedForLarger(others, kept, partition, c, k);
      DropsOn(last, partition, 0, notes);
    } else {
      assert last == c;
      AllComparedFit(others, partition, kept);
      NoStopInside(c, partition, k);
      WithinIsSmaller(c, partition[k]);
      DropsAt(c, partition, 0, notes, k);
    }
  }

  // No class lies inside another one.
  ghost predicate AreApart(classes: set<Cluster>) {
    forall c, d :: c in classes && d in classes && Within(c, d) ==> c == d
  }

  // Classes that lie apart do so after a pass exactly when no class that it adds lies inside a kept one.
  lemma ApartAfterPass(order: seq<Cluster>, kept: set<Cluster>, partition: seq<Cluster>)
    requires IsOrder(order, kept) && AreDisjoint(partition) && AreClasses(kept) && AreApart(kept)
    ensures var notes := AllCompared(order, partition);
      AreApart(Outcome(kept, partition, notes)) <==>
        forall k :: k in notes.toAdd && k < |partition| && partition[k] !in kept ==> !Covered(partition[k], kept)
  {
    hide Within, AllCompared, AreDisjoint, Covered;
    var notes := AllCompared(order, partition);
    var outcome := Outcome(kept, partition, notes);
    AllComparedFit(order, partition, kept);
    if c, d :| c in outcome && d in outcome && Within(c, d) && c != d {
      var k := InsideAnother(order, kept, partition, c, d);
    }
    forall k | k in notes.toAdd && k < |partition| && partition[k] !in kept && Covered(partition[k], kept) ensures !AreApart(outcome) {
      var d := AroundIn(partition[k], kept);
      AroundStays(order, kept, partition, d, k);
      assert partition[k] in Added(notes.toAdd, partition) && partition[k] in outcome && d in outcome;
    }
  }

  lemma AroundIn(c: Cluster, kept: set<Cluster>) returns (d: Cluster)
    requires Covered(c, kept)
    ensures d in kept && Within(c, d)
  {
    d :| d in kept && Within(c, d);
  }

  lemma InsideAnother(order: seq<Cluster>, kept: set<Cluster>, partition: seq<Cluster>, c: Cluster, d: Cluster) returns (k: nat)
    requires IsOrder(order, kept) && AreDisjoint(partition) && AreClasses(kept) && AreApart(kept) && c != d && Within(c, d)
    requires c in Outcome(kept, partition, AllCompared(order, partition)) && d in Outcome(kept, partition, AllCompared(order, partition))
    ensures k in AllCompared(order, partition).toAdd && k < |partition| && partition[k] !in kept && Covered(partition[k], kept)
  {
    hide Within, AllCompared, AreDisjoint;
    var notes := AllCompared(order, partition);
    var found := if d in kept then c else d;
    assert found !in kept;
    k :| k in notes.toAdd && k < |partition| && found == partition[k];
    if d !in kept && !Covered(d, kept) {
      if c in kept {
        PlacesAscend(partition, k);
        if Within(d, c) {
          WithinIsSmaller(c, d);
          WithinIsSmaller(d, c);
        }
        DroppedForLarger(order, kept, partition, c, k);
      } else {
        var l :| l in notes.toAdd && l < |partition| && c == partition[l];
        OneOfDisjoint(partition, l, k);
      }
      assert false;
    }
  }

  lemma PlacesAscend(partition: seq<Cluster>, k: nat)
    requires AreDisjoint(partition) && k < |partition|
    ensures Ascending(partition[k])
  {
  }

  // A kept class around a new one is not dropped.
  lemma AroundStays(order: seq<Cluster>, kept: set<Cluster>, partition: seq<Cluster>, d: Cluster, k: nat)
    requires IsOrder(order, kept) && AreDisjoint(partition) && AreClasses(kept) && d in kept
    requires k < |partition| && Within(partition[k], d)
    ensures d !in AllCompared(order, partition).toDelete
  {
    hide Within, AllCompared;
    var notes := AllCompared(order, partition);
    AllComparedFit(order, partition, kept);
    if d in notes.toDelete {
      var l :| 0 <= l < |partition| && (l in notes.toAdd || l in notes.excluded) && Within(d, partition[l]) && !Within(partition[l], d);
      WithinTransitive(partition[k], d, partition[l]);
      OneOfDisjoint(partition, k, l);
    }
  }

  // Kept classes with at most one new class inside each stay apart in every order.
  lemma ApartWhenOneInside(order: seq<Cluster>, kept: set<Cluster>, partition: seq<Cluster>)
    requires IsOrder(order, kept) && AreDisjoint(partition) && AreClasses(kept) && AreApart(kept)
    requires forall d, k, l :: d in kept && StopsAt(d, partition, k) && StopsAt(d, partition, l) ==> k == l
    ensures AreApart(Outcome(kept, partition, AllCompared(order, partition)))
  {
    hide Within, AllCompared, AreDisjoint;
    var notes := AllCompared(order, partition);
    AllComparedFit(order, partition, kept);
    forall k | k in notes.toAdd && k < |partition| && partition[k] !in kept ensures !Covered(partition[k], kept) {
      if Covered(partition[k], kept) {
        var d :| d in kept && Within(partition[k], d);
        PlacesAscend(partition, k);
        WithinIsSmaller(partition[k], d);
        ExcludedInside(order, partition, d, k);
      }
    }
    ApartAfterPass(order, kept, partition);
  }

  // The only new class inside a kept one is excluded.
  lemma {:induction false} ExcludedInside(order: seq<Cluster>, partition: seq<Cluster>, d: Cluster, k: nat)
    requires d in order && StopsAt(d, partition, k) && forall l :: StopsAt(d, partition, l) ==> l == k
    ensures k in AllCompared(order, partition).excluded
  {
    var n := |order| - 1;
    var others, last := order[..n], order[n];
    var notes := AllCompared(others, partition);
    if d in others {
      ExcludedInside(others, partition, d, k);
      ExcludesOn(last, partition, 0, notes);
    } else {
      assert last == d;
      if k in notes.excluded {
        ExcludesOn(d, partition, 0, notes);
      } else {
        StopsAtFirst(d, partition, 0, notes, k);
      }
    }
  }

  lemma {:induction false} ExcludesOn(c: Cluster, partition: seq<Cluster>, from: nat, notes: Notes)
    ensures notes.excluded <= Compared(c, partition, from, notes).excluded
    decreases |partition| - from
  {
    if from < |partition| {
      if from in notes.excluded {
        ExcludesOn(c, partition, from + 1, notes);
      } else if !StopsAt(c, partition, from) {
        ExcludesOn(c, partition, from + 1, Noted(c, partition, from, notes));
      }
    }
  }

  // ----- which columns can lose a class -----

  // Some way through the columns before n leaves kept classes of which the pass over column n can lose the class at place k.
  ghost predicate CanLose(columnData: seq<PositionListIndex>, n: nat, k: nat) {
    && n < |columnData| && k < |columnData[n].index| && !NothingBefore(columnData, n)
    && exists before: Run :: RunsTo(columnData, n, before) && CanSend(before.rep, columnData[n].index, k)
  }

  ghost predicate CanSend(kept: set<Cluster>, partition: seq<Cluster>, k: nat) {
    exists places :: StopBefore(places, kept, partition, k)
  }

  // Every way through some columns can be continued, and nothing that was lost is taken back.
  lemma {:induction false} RunContinues(columnData: seq<PositionListIndex>, n: nat, run: Run) returns (end: Run)
    requires n <= |columnData| && RunsTo(columnData, n, run)
    ensures RunsTo(columnData, |columnData|, end) && (n > 0 && !NothingBefore(columnData, n) ==> run.lost <= end.lost)
    decreases |columnData| - n
  {
    hide AllCompared;
    if n == |columnData| {
      end := run;
    } else {
      var partition := columnData[n].index;
      var next := run;
      if partition != [] && NothingBefore(columnData, n) {
        next := Run(ClassesOf(partition), ClassesOf(partition), {});
      } else if partition != [] {
        var order := SomeOrder(run.rep);
        next := AfterPass(run, order, partition);
      }
      assert RunsThrough(columnData, n + 1, run, next);
      end := RunContinues(columnData, n + 1, next);
    }
  }

  lemma {:induction false} SomeOrder(kept: set<Cluster>) returns (order: seq<Cluster>)
    ensures IsOrder(order, kept)
    decreases kept
  {
    if kept == {} {
      order := [];
    } else {
      var c :| c in kept;
      order := SomeOrder(kept - {c});
      order := order + [c];
    }
  }

  // A class is lost in some run exactly when it can be lost in some pass.
  lemma LostInSomeRun(columnData: seq<PositionListIndex>)
    ensures (forall run: Run :: RunsTo(columnData, |columnData|, run) ==> run.lost == {}) <==>
      forall n: nat, k: nat :: !CanLose(columnData, n, k)
  {
    hide RunsTo, CanSend, PassesTo;
    if n: nat, k: nat :| CanLose(columnData, n, k) {
      var end := RunThatLoses(columnData, n, k);
    }
    if forall n: nat, k: nat :: !CanLose(columnData, n, k) {
      forall run: Run | RunsTo(columnData, |columnData|, run) ensures run.lost == {} {
        NothingLost(columnData, |columnData|, run);
      }
    }
  }

  lemma RunThatLoses(columnData: seq<PositionListIndex>, n: nat, k: nat) returns (end: Run)
    requires CanLose(columnData, n, k)
    ensures RunsTo(columnData, |columnData|, end) && end.lost != {}
  {
    hide RunsTo, AllCompared;
    var partition := columnData[n].index;
    var before: Run :| RunsTo(columnData, n, before) && CanSend(before.rep, partition, k);
    LostInSomeOrder(before.rep, partition, k);
    var order :| LostIn(order, before.rep, partition, k);
    var first :| 0 <= first < n && columnData[first].index != [];
    RunsOn(columnData, first, n, before, order);
    var run := AfterPass(before, order, partition);
    assert partition[k] in run.lost;
    end := RunContinues(columnData, n + 1, run);
  }

  lemma {:induction false} NothingLost(columnData: seq<PositionListIndex>, n: nat, run: Run)
    requires n <= |columnData| && RunsTo(columnData, n, run) && forall m: nat, k: nat :: !CanLose(columnData, m, k)
    ensures run.lost == {}
    decreases n
  {
    hide AllCompared, StopBefore;
    if n > 0 {
      var before :| RunsThrough(columnData, n, before, run);
      NothingLost(columnData, n - 1, before);
      var partition := columnData[n - 1].index;
      if partition != [] && !NothingBefore(columnData, n - 1) {
        var order :| IsOrder(order, before.rep) && run == AfterPass(before, order, partition);
        forall k: nat | k < |partition| ensures LookedAt(k, AllCompared(order, partition)) {
          LostInSomeOrder(before.rep, partition, k);
          assert !CanLose(columnData, n - 1, k);
          assert !LostIn(order, before.rep, partition, k);
        }
      }
    }
  }

  // So nothing is lost where some kept class has no new class inside it.
  lemma LooksAtAll(kept: set<Cluster>, partition: seq<Cluster>, c: Cluster)
    requires c in kept && forall l :: 0 <= l < |partition| ==> !Within(partition[l], c)
    ensures forall k: nat :: !CanSend(kept, partition, k)
  {
    forall k: nat, places ensures !StopBefore(places, kept, partition, k) {
      assert c in places.Keys ==> !StopsAt(c, partition, places[c]);
    }
  }

  lemma OneMember(order: seq<Cluster>, c: Cluster)
    requires IsOrder(order, {c})
    ensures order == [c]
  {
    assert c in order;
    var others := order[1..];
    forall i | 0 <= i < |others| ensures others[i] != c {
      assert others[i] == order[i + 1] && order[0] in order;
    }
    forall d ensures d !in others {
      assert d in others ==> d in order;
    }
    HasMember(others);
    assert order == [order[0]] + others;
  }

  // An input that loses a class: the kept class [0, 1] meets itself in the second column and never looks at [2, 3].
  lemma LosesClass(columnData: seq<PositionListIndex>, run: Run)
    requires |columnData| == 2 && columnData[0].index == [[0, 1]] && columnData[1].index == [[0, 1], [2, 3]]
    requires RunsTo(columnData, 2, run)
    ensures run.rep == {[0, 1]} && run.lost == {[2, 3]} && !Covered([2, 3], run.rep)
  {
    var before :| RunsThrough(columnData, 2, before, run);
    var start :| RunsThrough(columnData, 1, start, before);
    assert !NothingBefore(columnData, 1);
    assert before == Run({[0, 1]}, {[0, 1]}, {});
    var partition := columnData[1].index;
    var order :| IsOrder(order, before.rep) && run == AfterPass(before, order, partition);
    OneMember(order, [0, 1]);
    var empty := Notes({}, {}, {});
    assert AllCompared(order[..0], partition) == empty;
    assert Compared([0, 1], partition, 0, empty) == Notes({}, {0}, {});
    assert 2 in Elements([2, 3]) && 2 !in Elements([0, 1]);
    assert LookedAt(0, Notes({}, {0}, {})) && !LookedAt(1, Notes({}, {0}, {}));
  }

  // An input on which a class stays inside another one: [0, 1, 2, 3] stops at [0, 1], while [4, 5] goes on and adds [2, 3].
  lemma KeepsNested(columnData: seq<PositionListIndex>, run: Run)
    requires |columnData| == 3 && columnData[0].index == [[0, 1, 2, 3]] && columnData[1].index == [[4, 5]]
    requires columnData[2].index == [[0, 1], [2, 3]] && RunsTo(columnData, 3, run)
    ensures [0, 1, 2, 3] in run.rep && [2, 3] in run.rep && !AreApart(run.rep)
  {
    hide AllCompared, Found, Lost, Within, AfterPass;
    var before :| RunsThrough(columnData, 3, before, run);
    assert !NothingBefore(columnData, 2);
    NestedBefore(columnData, before);
    var last :| IsOrder(last, before.rep) && run == AfterPass(before, last, columnData[2].index);
    TwoMembers(last, [0, 1, 2, 3], [4, 5]);
    NestedAfter(before, last, run);
    NestedInside();
  }

  lemma NestedAfter(before: Run, order: seq<Cluster>, run: Run)
    requires order == [[0, 1, 2, 3], [4, 5]] || order == [[4, 5], [0, 1, 2, 3]]
    requires before.rep == {[0, 1, 2, 3], [4, 5]} && run == AfterPass(before, order, [[0, 1], [2, 3]])
    ensures [0, 1, 2, 3] in run.rep && [2, 3] in run.rep
  {
    hide AllCompared, Found, Lost;
    NestedSecond(order);
    assert Added({1}, [[0, 1], [2, 3]]) == {[2, 3]};
  }

  lemma NestedInside()
    ensures Within([2, 3], [0, 1, 2, 3])
  {
  }

  lemma NestedBefore(columnData: seq<PositionListIndex>, before: Run)
    requires |columnData| >= 2 && columnData[0].index == [[0, 1, 2, 3]] && columnData[1].index == [[4, 5]]
    requires RunsTo(columnData, 2, before)
    ensures before.rep == {[0, 1, 2, 3], [4, 5]}
  {
    hide AllCompared, Found, Lost;
    var first :| RunsThrough(columnData, 2, first, before);
    var start :| RunsThrough(columnData, 1, start, first);
    assert !NothingBefore(columnData, 1);
    var big := [0, 1, 2, 3];
    assert first == Run({big}, {big}, {});
    var order :| IsOrder(order, first.rep) && before == AfterPass(first, order, columnData[1].index);
    OneMember(order, big);
    NestedFirst();
  }

  lemma NestedFirst()
    ensures Outcome({[0, 1, 2, 3]}, [[4, 5]], AllCompared([[0, 1, 2, 3]], [[4, 5]])) == {[0, 1, 2, 3], [4, 5]}
  {
    var order, partition := [[0, 1, 2, 3]], [[4, 5]];
    assert AllCompared(order[..0], partition) == Notes({}, {}, {});
    assert 4 in Elements([4, 5]) && 4 !in Elements([0, 1, 2, 3]);
    assert Compared(order[0], partition, 0, Notes({}, {}, {})) == Notes({0}, {}, {});
    assert Added({0}, partition) == {[4, 5]};
  }

  lemma NestedSecond(order: seq<Cluster>)
    requires order == [[0, 1, 2, 3], [4, 5]] || order == [[4, 5], [0, 1, 2, 3]]
    ensures AllCompared(order, [[0, 1], [2, 3]]) == Notes({1}, {0}, {})
  {
    var partition := [[0, 1], [2, 3]];
    var empty := Notes({}, {}, {});
    assert order[..1] == [order[0]] && order[..1][..0] == [];
    assert AllCompared([], partition) == empty;
    NestedCompared();
    assert AllCompared(order[..1], partition) == Compared(order[0], partition, 0, empty);
  }

  lemma NestedCompared()
    ensures var partition := [[0, 1], [2, 3]];
      && Compared([0, 1, 2, 3], partition, 0, Notes({}, {}, {})) == Notes({}, {0}, {})
      && Compared([4, 5], partition, 0, Notes({}, {0}, {})) == Notes({1}, {0}, {})
      && Compared([4, 5], partition, 0, Notes({}, {}, {})) == Notes({0, 1}, {}, {})
      && Compared([0, 1, 2, 3], partition, 0, Notes({0, 1}, {}, {})) == Notes({1}, {0}, {})
  {
    var partition := [[0, 1], [2, 3]];
    assert 0 in Elements([0, 1]) && 2 in Elements([2, 3]) && 0 !in Elements([4, 5]) && 2 !in Elements([4, 5]);
    assert 4 in Elements([4, 5]) && 4 !in Elements([0, 1]) && 4 !in Elements([2, 3]);
    assert Compared([4, 5], partition, 2, Notes({1}, {0}, {})) == Notes({1}, {0}, {});
    assert Compared([4, 5], partition, 2, Notes({0, 1}, {}, {})) == Notes({0, 1}, {}, {});
    assert Compared([4, 5], partition, 1, Notes({0}, {}, {})) == Notes({0, 1}, {}, {});
    assert Compared([4, 5], partition, 1, Notes({}, {0}, {})) == Notes({1}, {0}, {});
  }

  lemma TwoMembers(order: seq<Cluster>, c: Cluster, d: Cluster)
    requires IsOrder(order, {c, d}) && c != d
    ensures order == [c, d] || order == [d, c]
  {
    assert c in order && order[0] in order;
    RestIsOrder(order, {c, d});
    assert {c, d} - {order[0]} == if order[0] == c then {d} else {c};
    OneMember(order[1..], if order[0] == c then d else c);
  }

  lemma RestIsOrder(order: seq<Cluster>, kept: set<Cluster>)
    requires IsOrder(order, kept) && order != []
    ensures IsOrder(order[1..], kept - {order[0]})
  {
    forall e ensures e in order[1..] <==> e in order && e != order[0] {
      if e in order && e != order[0] {
        var i :| 0 <= i < |order| && order[i] == e;
        assert order[1..][i - 1] == e;
      }
    }
  }
}
