// GenerateNextLevel: the prefix join of two sibling vertices, intersecting the candidates of all parents.
module LatticeLevel {
  import opened Relations
  import opened Bits
  import opened Options
  import opened PositionListIndexes
  import opened TaneTheory
  import opened Lattice

  ghost predicate IsKeyed(level: Level) {
    forall x :: x in level ==> level[x].vertical == x
  }

  // The parents are the vertices without one of the removed columns, each once.
  ghost predicate ParentsAre(parents: seq<LatticeVertex>, removed: set<nat>, level: Level, x: Vertical) {
    && NoDuplicates(parents)
    && (forall b :: b in removed ==> b in x && x - {b} in level && level[x - {b}] in parents)
    && (forall p :: p in parents ==> exists b :: b in removed && x - {b} in level && p == level[x - {b}])
  }

  // The child carries what the parents looked at so far have in common.
  ghost predicate JoinedOver(v: VertexView, view: map<Vertical, VertexView>, x: Vertical, removed: set<nat>) {
    && (forall b :: b in removed ==> x - {b} in view)
    && (forall a :: a in v.rhsCandidates <==> forall b :: b in removed ==> a in view[x - {b}].rhsCandidates)
    && (v.isKeyCandidate <==> forall b :: b in removed ==> view[x - {b}].isKeyCandidate)
    && (v.isInvalid <==> exists b :: b in removed && view[x - {b}].isInvalid)
  }

  ghost predicate Joinable(view: map<Vertical, VertexView>, x: Vertical) {
    ParentsExist(view, x) && exists a :: CommonCandidate(view, x, a)
  }

  // What survives the join: all parents are there and, when there are more than two, they have a candidate in common.
  ghost predicate Survives(view: map<Vertical, VertexView>, x: Vertical, arity: nat) {
    ParentsExist(view, x) && (arity == 1 || exists a :: CommonCandidate(view, x, a))
  }

  // Two siblings that are joined: the guards of both loops let them pass, and their union survives.
  ghost predicate Joins(view: map<Vertical, VertexView>, x1: Vertical, x2: Vertical, arity: nat) {
    && x1 in view && x2 in view && AreSiblings(x1, x2) && Survives(view, x1 + x2, arity)
    && (view[x1].rhsCandidates != {} || (view[x1].isKeyCandidate && view[x2].isKeyCandidate))
  }

  ghost predicate IsJoined(view: map<Vertical, VertexView>, x: Vertical, arity: nat) {
    exists x1, x2 :: Joins(view, x1, x2, arity) && x == x1 + x2
  }

  lemma JoinedOverAll(v: VertexView, view: map<Vertical, VertexView>, x: Vertical)
    requires JoinedOver(v, view, x, x)
    ensures ParentsExist(view, x) && IsJoin(v, view, x)
  {
    forall a ensures a in v.rhsCandidates <==> CommonCandidate(view, x, a) {
    }
  }

  lemma NoCommonCandidate(v: VertexView, view: map<Vertical, VertexView>, x: Vertical, removed: set<nat>)
    requires JoinedOver(v, view, x, removed) && removed <= x && v.rhsCandidates == {}
    ensures !Joinable(view, x)
  {
    forall a | ParentsExist(view, x) ensures !CommonCandidate(view, x, a) {
      assert a !in v.rhsCandidates;
    }
  }

  lemma JoinedOverMore(v: VertexView, view: map<Vertical, VertexView>, x: Vertical, removed: set<nat>, b: nat)
    requires JoinedOver(v, view, x, removed) && b !in removed && x - {b} in view
    ensures var p := view[x - {b}];
      JoinedOver(Vertex(v.rhsCandidates * p.rhsCandidates, v.isKeyCandidate && p.isKeyCandidate,
                        v.isInvalid || p.isInvalid), view, x, removed + {b})
  {
  }

  // The join of siblings: their union, with the two removed columns on top of their common prefix.
  lemma SiblingUnion(x1: Vertical, x2: Vertical, a: nat, b: nat)
    requires Siblings(x1, x2, a, b)
    ensures var x := x1 + x2;
      && a in x && b in x && a < b && x - {b} == x1 && x - {a} == x2 && |x| == |x1| + 1 && |x - {a, b}| == |x1| - 1
      && (forall c :: c in x - {a, b} ==> c < a)
  {
    var x := x1 + x2;
    assert forall c :: c in x1 ==> c == a || c in x2 - {b};
    assert forall c :: c in x2 ==> c == b || c in x1 - {a};
    assert a !in x2 - {b} && b !in x1 - {a};
    assert x == x1 + {b} && x - {b} == x1 && x - {a} == x2;
    assert x - {a, b} == x1 - {a};
  }

  // The walk over the prefix: removed are the columns of x below skip, fewer than the prefix has at first.
  ghost predicate PrefixWalk(x: Vertical, a: nat, b: nat, skip: nat, n: nat, removed: set<nat>) {
    && a in x && b in x && a < b && (forall c :: c in x - {a, b} ==> c < a) && (forall c :: c in x ==> c < n)
    && skip <= n && (skip < n ==> skip in x)
    && removed <= x - {a, b} && (forall c :: c in x ==> (c < skip <==> c in removed))
  }

  lemma PrefixStart(x: Vertical, a: nat, b: nat, n: nat)
    requires a in x && b in x && a < b && (forall c :: c in x - {a, b} ==> c < a) && forall c :: c in x ==> c < n
    ensures PrefixWalk(x, a, b, FindFrom(x, 0, n), n, {})
  {
  }

  // While fewer parents than prefix columns were looked at, the next column belongs to the prefix.
  lemma PrefixStep(x: Vertical, a: nat, b: nat, skip: nat, n: nat, removed: set<nat>)
    requires PrefixWalk(x, a, b, skip, n, removed) && |removed| < |x - {a, b}|
    ensures skip in x - {a, b} && skip !in removed && |removed + {skip}| == |removed| + 1
    ensures PrefixWalk(x, a, b, FindNext(x, skip, n), n, removed + {skip})
  {
    ProperSubset(removed, x - {a, b});
    var c :| c in x - {a, b} && c !in removed;
    assert c < n && c >= skip;
  }

  lemma PrefixEnd(x: Vertical, a: nat, b: nat, skip: nat, n: nat, removed: set<nat>)
    requires PrefixWalk(x, a, b, skip, n, removed) && |removed| == |x - {a, b}|
    ensures removed == x - {a, b} && removed + {a, b} == x
  {
    SameSize(removed, x - {a, b});
  }

  // What the child has in common with the two generating vertices and the removed prefix columns.
  ghost predicate JoinState(v: VertexView, view: map<Vertical, VertexView>, x: Vertical, removed: set<nat>, a: nat, b: nat) {
    JoinedOver(v, view, x, removed + {a, b})
  }

  lemma JoinStateStep(v: VertexView, p: VertexView, view: map<Vertical, VertexView>, x: Vertical, removed: set<nat>,
                      a: nat, b: nat, skip: nat)
    requires JoinState(v, view, x, removed, a, b) && skip !in removed + {a, b} && x - {skip} in view
    requires p == view[x - {skip}]
    ensures JoinState(Vertex(v.rhsCandidates * p.rhsCandidates, v.isKeyCandidate && p.isKeyCandidate,
                             v.isInvalid || p.isInvalid), view, x, removed + {skip}, a, b)
  {
    JoinedOverMore(v, view, x, removed + {a, b}, skip);
    assert removed + {skip} + {a, b} == removed + {a, b} + {skip};
  }

  lemma JoinStateEmpty(v: VertexView, view: map<Vertical, VertexView>, x: Vertical, removed: set<nat>, a: nat, b: nat)
    requires JoinState(v, view, x, removed, a, b) && removed + {a, b} <= x && v.rhsCandidates == {}
    ensures !Joinable(view, x)
  {
    NoCommonCandidate(v, view, x, removed + {a, b});
  }

  // Intersects the candidates and flags of the child with one more parent and lists it.
  method AddParent(child: LatticeVertex, parentVertex: LatticeVertex, level: Level, ghost x: Vertical,
                   ghost removed: set<nat>, ghost a: nat, ghost b: nat, ghost skip: nat)
    requires child !in level.Values && IsKeyed(level) && skip !in removed + {a, b} && skip in x
    requires x - {skip} in level && parentVertex == level[x - {skip}]
    requires JoinState(child.View(), LevelView(level), x, removed, a, b)
    requires ParentsAre(child.parents, removed, level, x)
    modifies child
    ensures LevelView(level) == old(LevelView(level))
    ensures JoinState(child.View(), LevelView(level), x, removed + {skip}, a, b)
    ensures ParentsAre(child.parents, removed + {skip}, level, x)
    ensures child.positionListIndex == old(child.positionListIndex)
  {
    hide JoinState, ParentsAre;
    JoinStateStep(child.View(), parentVertex.View(), LevelView(level), x, removed, a, b, skip);
    MoreParents(child.parents, removed, level, x, skip);
    child.rhsCandidates := child.rhsCandidates * parentVertex.rhsCandidates;
    child.isKeyCandidate := child.isKeyCandidate && parentVertex.isKeyCandidate;
    child.isInvalid := child.isInvalid || parentVertex.isInvalid;
    child.parents := child.parents + [parentVertex];
  }

  // A child that starts from its two generating vertices; they become its last two parents.
  method StartJoin(level: Level, x1: Vertical, x2: Vertical, ghost a: nat, ghost b: nat) returns (child: LatticeVertex)
    requires x1 in level && x2 in level
    requires x1 + x2 - {b} == x1 && x1 + x2 - {a} == x2
    ensures fresh(child) && child.vertical == x1 + x2 && child.positionListIndex == None && child.parents == []
    ensures JoinState(child.View(), LevelView(level), x1 + x2, {}, a, b)
  {
    hide JoinState, JoinedOver, LevelView;
    var vertex1, vertex2 := level[x1], level[x2];
    StartState(vertex1.View(), vertex2.View(), level, x1 + x2, a, b);
    child := new LatticeVertex(x1 + x2);
    child.rhsCandidates := vertex1.rhsCandidates * vertex2.rhsCandidates;
    child.isKeyCandidate := vertex1.isKeyCandidate && vertex2.isKeyCandidate;
    child.isInvalid := vertex1.isInvalid || vertex2.isInvalid;
  }

  // The loop over the parents that keep both last columns; false when the child is dropped.
  method AddPrefixParents(child: LatticeVertex, level: Level, arity: nat, columns: Vertical, n: nat,
                          ghost a: nat, ghost b: nat) returns (ok: bool)
    requires arity >= 1 && child !in level.Values && IsKeyed(level) && child.parents == []
    requires |columns - {a, b}| == arity - 1 && PrefixWalk(columns, a, b, FindFrom(columns, 0, n), n, {})
    requires JoinState(child.View(), LevelView(level), columns, {}, a, b)
    modifies child
    ensures child.positionListIndex == old(child.positionListIndex) && LevelView(level) == old(LevelView(level))
    ensures !ok ==> arity >= 2 && !Joinable(LevelView(level), columns)
    ensures ok && arity >= 2 ==> child.rhsCandidates != {}
    ensures ok ==> JoinedOver(child.View(), LevelView(level), columns, columns)
    ensures ok ==> ParentsAre(child.parents, columns - {a, b}, level, columns)
  {
    hide JoinState, Joinable, LevelView, ParentsAre, PrefixWalk, IsKeyed;
    ghost var removed: set<nat> := {};
    NoParents(level, columns);
    var i, skip := 0, FindFrom(columns, 0, n);
    while i < arity - 1
      invariant 0 <= i <= arity - 1 && i == |removed|
      invariant LevelView(level) == old(LevelView(level)) && child.positionListIndex == old(child.positionListIndex)
      invariant PrefixWalk(columns, a, b, skip, n, removed)
      invariant JoinState(child.View(), LevelView(level), columns, removed, a, b)
      invariant ParentsAre(child.parents, removed, level, columns)
      invariant i > 0 ==> child.rhsCandidates != {}
    {
      PrefixStep(columns, a, b, skip, n, removed);
      var parentIndices := columns - {skip};
      if parentIndices !in level {
        MissingParent(level, columns, skip);
        return false;
      }
      AddParent(child, level[parentIndices], level, columns, removed, a, b, skip);
      removed := removed + {skip};
      i, skip := i + 1, FindNext(columns, skip, n);
      if child.rhsCandidates == {} {
        WalkInside(columns, a, b, skip, n, removed);
        JoinStateEmpty(child.View(), LevelView(level), columns, removed, a, b);
        return false;
      }
    }
    PrefixEnd(columns, a, b, skip, n, removed);
    JoinStateMeans(child.View(), LevelView(level), columns, removed, a, b);
    ok := true;
  }

  lemma WalkInside(x: Vertical, a: nat, b: nat, skip: nat, n: nat, removed: set<nat>)
    requires PrefixWalk(x, a, b, skip, n, removed)
    ensures removed + {a, b} <= x
  {
  }

  lemma JoinStateMeans(v: VertexView, view: map<Vertical, VertexView>, x: Vertical, removed: set<nat>, a: nat, b: nat)
    requires JoinState(v, view, x, removed, a, b)
    ensures JoinedOver(v, view, x, removed + {a, b})
  {
  }

  method JoinVertices(level: Level, arity: nat, x1: Vertical, x2: Vertical, r: Relation) returns (child: LatticeVertex?)
    requires IsLatticeLevel(level, arity, r) && arity >= 1
    requires x1 in level && x2 in level && AreSiblings(x1, x2)
    ensures child != null <==> Survives(LevelView(level), x1 + x2, arity)
    ensures child != null ==>
      && fresh(child) && child.vertical == x1 + x2 && |x1 + x2| == arity + 1
      && ParentsExist(LevelView(level), x1 + x2) && IsJoin(child.View(), LevelView(level), x1 + x2)
      && ParentsAre(child.parents, x1 + x2, level, x1 + x2) && child.positionListIndex == None
  {
    hide JoinedOver, Joinable, IsJoin, ParentsExist, LevelView, Siblings, ParentsAre, IsLatticeLevel, Survives;
    ghost var a: nat, b: nat :| Siblings(x1, x2, a, b);
    SiblingUnion(x1, x2, a, b);
    LevelBounds(level, arity, r, x1, x2);
    ghost var view := LevelView(level);
    PrefixStart(x1 + x2, a, b, r.numColumns);
    child := StartJoin(level, x1, x2, a, b);
    assert child !in level.Values;
    var ok := AddPrefixParents(child, level, arity, x1 + x2, r.numColumns, a, b);
    if !ok {
      NotSurviving(view, x1 + x2, arity);
      return null;
    }
    ghost var v := child.View();
    JoinedOverAll(v, view, x1 + x2);
    Surviving(v, view, x1 + x2, arity);
    AllParents(child.parents, level, x1 + x2, a, b);
    child.parents := child.parents + [level[x1], level[x2]];
    assert child.View() == v && LevelView(level) == view;
  }

  lemma NotSurviving(view: map<Vertical, VertexView>, x: Vertical, arity: nat)
    requires arity >= 2 && !Joinable(view, x)
    ensures !Survives(view, x, arity)
  {
  }

  lemma Surviving(v: VertexView, view: map<Vertical, VertexView>, x: Vertical, arity: nat)
    requires ParentsExist(view, x) && IsJoin(v, view, x) && arity >= 1 && (arity >= 2 ==> v.rhsCandidates != {})
    ensures Survives(view, x, arity)
  {
    if arity >= 2 {
      var a :| a in v.rhsCandidates;
      assert CommonCandidate(view, x, a);
    }
  }

  lemma LevelBounds(level: Level, arity: nat, r: Relation, x1: Vertical, x2: Vertical)
    requires IsLatticeLevel(level, arity, r) && x1 in level && x2 in level
    ensures IsKeyed(level) && |x1| == arity && forall c :: c in x1 + x2 ==> c < r.numColumns
  {
  }

  lemma NoParents(level: Level, x: Vertical)
    ensures ParentsAre([], {}, level, x)
  {
  }

  lemma MoreParents(parents: seq<LatticeVertex>, removed: set<nat>, level: Level, x: Vertical, b: nat)
    requires ParentsAre(parents, removed, level, x) && IsKeyed(level)
    requires b in x && b !in removed && x - {b} in level
    ensures ParentsAre(parents + [level[x - {b}]], removed + {b}, level, x)
  {
    var p := level[x - {b}];
    forall q | q in parents ensures q != p {
      var c :| c in removed && x - {c} in level && q == level[x - {c}];
      assert b in x - {c} && b !in x - {b};
    }
    assert forall i :: 0 <= i < |parents| ==> parents[i] in parents;
    assert forall q :: q in parents + [p] <==> q in parents || q == p;
  }

  lemma AllParents(parents: seq<LatticeVertex>, level: Level, x: Vertical, a: nat, b: nat)
    requires ParentsAre(parents, x - {a, b}, level, x) && IsKeyed(level)
    requires a in x && b in x && a != b && x - {a} in level && x - {b} in level
    ensures ParentsAre(parents + [level[x - {b}], level[x - {a}]], x, level, x)
  {
    hide ParentsAre;
    MoreParents(parents, x - {a, b}, level, x, b);
    assert x - {a, b} + {b} == x - {a} && x - {a} + {a} == x;
    MoreParents(parents + [level[x - {b}]], x - {a}, level, x, a);
    assert parents + [level[x - {b}]] + [level[x - {a}]] == parents + [level[x - {b}], level[x - {a}]];
  }

  lemma ProperSubset(s: set<nat>, t: set<nat>)
    requires s <= t && |s| < |t|
    ensures s < t
  {
    if s == t {
      assert false;
    }
  }

  lemma SameSize(s: set<nat>, t: set<nat>)
    requires s <= t && |s| == |t|
    ensures s == t
  {
    assert t == s + (t - s);
  }

  lemma ViewOf(level: Level)
    ensures LevelView(level).Keys == level.Keys
    ensures forall x :: x in level ==> LevelView(level)[x] == level[x].View()
  {
  }

  lemma MissingParent(level: Level, x: Vertical, b: nat)
    requires b in x && x - {b} !in level
    ensures !Joinable(LevelView(level), x)
  {
  }

  lemma StartState(p: VertexView, q: VertexView, level: Level, x: Vertical, a: nat, b: nat)
    requires x - {a} in level && x - {b} in level && p == level[x - {b}].View() && q == level[x - {a}].View()
    ensures JoinState(Vertex(p.rhsCandidates * q.rhsCandidates, p.isKeyCandidate && q.isKeyCandidate,
                             p.isInvalid || q.isInvalid), LevelView(level), x, {}, a, b)
  {
    assert {} + {a, b} == {a, b};
  }

  // ----- the next level -----

  // What is known of each vertex added so far.
  ghost predicate NextVertices(next: Level, level: Level, view: map<Vertical, VertexView>, arity: nat, r: Relation)
    reads next.Values
  {
    forall x :: x in next ==>
      && next[x].vertical == x && |x| == arity + 1 && x <= r.Columns()
      && ParentsExist(view, x) && IsJoin(next[x].View(), view, x)
      && ParentsAre(next[x].parents, x, level, x) && next[x].positionListIndex == None
      && IsJoined(view, x, arity)
  }

  // The joins of the p-th vertex with the vertices before position q are in next.
  ghost predicate JoinedUpTo(next: Level, sorted: seq<Vertical>, view: map<Vertical, VertexView>, p: nat, q: nat, arity: nat) {
    forall m :: (p < |sorted| && 0 <= m < q && m < |sorted| && Joins(view, sorted[p], sorted[m], arity)) ==>
      sorted[p] + sorted[m] in next
  }

  lemma SiblingsInOrder(x: Vertical, y: Vertical, n: nat)
    requires AreSiblings(x, y) && (forall c :: c in x ==> c < n)
    ensures ComesFirst(x, y, 0, n) && x != y
  {
    var a: nat, b: nat :| Siblings(x, y, a, b);
    forall c: nat | c < a ensures c in x <==> c in y {
      assert c in x <==> c in x - {a};
      assert c in y <==> c in y - {b};
    }
    assert a in y ==> a in y - {b};
    assert FirstDifference(x, y, 0, a);
  }

  lemma NotBefore(sorted: seq<Vertical>, p: nat, n: nat)
    requires SortedVerticals(sorted, n) && p < |sorted| && forall x, c :: x in sorted && c in x ==> c < n
    ensures forall m :: 0 <= m <= p ==> !AreSiblings(sorted[p], sorted[m])
  {
    forall m | 0 <= m <= p ensures !AreSiblings(sorted[p], sorted[m]) {
      if m < p {
        ComesFirstTotal(sorted[p], sorted[m], n);
      }
      if AreSiblings(sorted[p], sorted[m]) {
        SiblingsInOrder(sorted[p], sorted[m], n);
      }
    }
  }

  // After the first vertex that does not share the prefix no other one does.
  lemma NotAfter(sorted: seq<Vertical>, p: nat, q: nat, arity: nat, n: nat)
    requires SortedVerticals(sorted, n) && p < q < |sorted|
    requires forall x :: x in sorted ==> |x| == arity && forall c :: c in x ==> c < n
    requires !AreSiblings(sorted[p], sorted[q])
    ensures forall m :: q <= m < |sorted| ==> !AreSiblings(sorted[p], sorted[m])
  {
    forall m | q <= m < |sorted| ensures !AreSiblings(sorted[p], sorted[m]) {
      assert sorted[m] in sorted && sorted[p] in sorted && sorted[q] in sorted;
      if AreSiblings(sorted[p], sorted[m]) {
        BetweenSiblings(sorted[p], sorted[q], sorted[m], n);
      }
    }
  }

  // Every larger vertical is the join of two siblings.
  lemma Decompose(x: Vertical, arity: nat) returns (x1: Vertical, x2: Vertical)
    requires |x| == arity + 1 && arity >= 1
    ensures AreSiblings(x1, x2) && x == x1 + x2
    ensures exists a, b :: a in x && b in x && x1 == x - {b} && x2 == x - {a}
  {
    var b := Greatest(x);
    assert |x - {b}| == arity;
    var a := Greatest(x - {b});
    x1, x2 := x - {b}, x - {a};
    assert x1 - {a} == x2 - {b};
    assert Siblings(x1, x2, a, b);
  }

  lemma {:induction false} Greatest(x: Vertical) returns (m: nat)
    requires |x| >= 1
    ensures m in x && forall c :: c in x ==> c <= m
    decreases |x|
  {
    var c :| c in x by {
      assert x != {};
    }
    if |x| == 1 {
      Singleton(x, c);
      m := c;
    } else {
      SizeOfRest(x, c);
      var d := Greatest(x - {c});
      assert forall e :: e in x ==> e == c || e in x - {c};
      m := if c < d then d else c;
    }
  }

  lemma NoneYet(level: Level, view: map<Vertical, VertexView>, arity: nat, r: Relation)
    ensures NextVertices(map[], level, view, arity, r)
  {
  }

  lemma MoreVertices(next: Level, level: Level, view: map<Vertical, VertexView>, arity: nat, r: Relation,
                     child: LatticeVertex)
    requires NextVertices(next, level, view, arity, r)
    requires var x := child.vertical;
      && |x| == arity + 1 && x <= r.Columns() && ParentsExist(view, x) && IsJoin(child.View(), view, x)
      && ParentsAre(child.parents, x, level, x) && child.positionListIndex == None && IsJoined(view, x, arity)
    ensures NextVertices(next[child.vertical := child], level, view, arity, r)
  {
    hide IsJoined, ParentsAre, IsJoin, ParentsExist;
  }

  lemma SharePrefixOfLevel(x: Vertical, y: Vertical, arity: nat, n: nat)
    requires |x| == |y| == arity >= 1 && (forall c :: c in x ==> c < n) && forall c :: c in y ==> c < n
    ensures SharePrefix(x, y, 0, arity - 1, n) <==> AreSiblings(x, y)
  {
    assert AboveOrAt(x, 0) == x && AboveOrAt(y, 0) == y;
    SharePrefixMeans(x, y, 0, arity - 1, n);
  }

  // Joins two vertices that share their prefix; the candidates of the first one are intersected with
  // themselves in the guard, so that the guard asks for any candidates of the first one.
  method JoinPair(before: Level, level: Level, arity: nat, sorted: seq<Vertical>, p: nat, q: nat, r: Relation)
    returns (next: Level)
    requires IsLatticeLevel(level, arity, r) && arity >= 1 && p < q < |sorted| && sorted[p] in level && sorted[q] in level
    requires AreSiblings(sorted[p], sorted[q]) && NextVertices(before, level, LevelView(level), arity, r)
    requires JoinedUpTo(before, sorted, LevelView(level), p, q, arity)
    requires level[sorted[p]].rhsCandidates != {} || level[sorted[p]].isKeyCandidate
    ensures LevelView(level) == old(LevelView(level)) && NextVertices(next, level, LevelView(level), arity, r)
    ensures before.Keys <= next.Keys && forall x :: x in next ==> fresh(next[x]) || (x in before && next[x] == before[x])
    ensures JoinedUpTo(next, sorted, LevelView(level), p, q + 1, arity)
  {
    hide NextVertices, LevelView, AreSiblings, IsJoin, ParentsAre, ParentsExist, Survives;
    ghost var view := LevelView(level);
    ViewOf(level);
    next := before;
    var vertex1, vertex2 := level[sorted[p]], level[sorted[q]];
    if vertex1.rhsCandidates * vertex1.rhsCandidates == {} && !vertex2.isKeyCandidate {
      assert vertex1.rhsCandidates == {};
      assert !Joins(view, sorted[p], sorted[q], arity);
    } else {
      var child := JoinVertices(level, arity, sorted[p], sorted[q], r);
      if child != null {
        assert Joins(view, sorted[p], sorted[q], arity);
        MoreVertices(next, level, view, arity, r, child);
        next := next[child.vertical := child];
      }
    }
  }

  // The inner loop: joins the p-th vertex with the ones that follow it and share its prefix.
  method JoinWithSiblings(before: Level, level: Level, arity: nat, sorted: seq<Vertical>, p: nat, r: Relation)
    returns (next: Level)
    requires IsLatticeLevel(level, arity, r) && arity >= 1 && p < |sorted| && sorted[p] in level
    requires SortedVerticals(sorted, r.numColumns) && forall x :: x in sorted <==> x in level
    requires NextVertices(before, level, LevelView(level), arity, r)
    requires level[sorted[p]].rhsCandidates != {} || level[sorted[p]].isKeyCandidate
    ensures NextVertices(next, level, LevelView(level), arity, r)
    ensures before.Keys <= next.Keys && forall x :: x in next ==> fresh(next[x]) || (x in before && next[x] == before[x])
    ensures JoinedUpTo(next, sorted, LevelView(level), p, |sorted|, arity)
  {
    hide NextVertices, LevelView, AreSiblings, SortedVerticals, ComesFirst, Joins, IsJoined, JoinedUpTo;
    ViewOf(level);
    ghost var view := LevelView(level);
    LevelIsBounded(level, arity, r, sorted);
    NotBefore(sorted, p, r.numColumns);
    next := before;
    NothingToJoin(next, sorted, view, p, p + 1, arity);
    var vertex1 := level[sorted[p]];
    var q := p + 1;
    while q < |sorted|
      invariant p < q <= |sorted| && (vertex1.rhsCandidates != {} || vertex1.isKeyCandidate)
      invariant NextVertices(next, level, view, arity, r) && LevelView(level) == view
      invariant before.Keys <= next.Keys
      invariant forall x :: x in next ==> fresh(next[x]) || (x in before && next[x] == before[x])
      invariant JoinedUpTo(next, sorted, view, p, q, arity)
    {
      ViewOf(level);
      var vertex2 := level[sorted[q]];
      assert sorted[p] in sorted && sorted[q] in sorted;
      SharePrefixOfLevel(sorted[p], sorted[q], arity, r.numColumns);
      if !SharePrefix(vertex1.vertical, vertex2.vertical, 0, arity - 1, r.numColumns) {
        NotAfter(sorted, p, q, arity, r.numColumns);
        NothingMoreToJoin(next, sorted, view, p, q, arity);
        break;
      }
      next := JoinPair(next, level, arity, sorted, p, q, r);
      q := q + 1;
    }
  }

  lemma NothingToJoin(next: Level, sorted: seq<Vertical>, view: map<Vertical, VertexView>, p: nat, q: nat, arity: nat)
    requires p < |sorted| && forall m :: 0 <= m < q && m < |sorted| ==> !AreSiblings(sorted[p], sorted[m])
    ensures JoinedUpTo(next, sorted, view, p, q, arity)
  {
    hide AreSiblings;
  }

  lemma NothingMoreToJoin(next: Level, sorted: seq<Vertical>, view: map<Vertical, VertexView>, p: nat, q: nat, arity: nat)
    requires JoinedUpTo(next, sorted, view, p, q, arity)
    requires p < |sorted| && forall m :: q <= m < |sorted| ==> !AreSiblings(sorted[p], sorted[m])
    ensures JoinedUpTo(next, sorted, view, p, |sorted|, arity)
  {
    hide AreSiblings;
  }

  lemma LevelIsBounded(level: Level, arity: nat, r: Relation, sorted: seq<Vertical>)
    requires IsLatticeLevel(level, arity, r) && forall x :: x in sorted <==> x in level
    ensures forall x :: x in sorted ==> |x| == arity && forall c :: c in x ==> c < r.numColumns
    ensures forall x :: x in level ==> level[x].vertical == x
  {
  }

  // The vertices of a level without candidates and key flag are not joined at all.
  lemma SkippedVertex(next: Level, level: Level, sorted: seq<Vertical>, p: nat, arity: nat)
    requires p < |sorted| && sorted[p] in level && level[sorted[p]].rhsCandidates == {} && !level[sorted[p]].isKeyCandidate
    ensures JoinedUpTo(next, sorted, LevelView(level), p, |sorted|, arity)
  {
    ViewOf(level);
  }

  method GenerateNextLevel(level: Level, arity: nat, r: Relation) returns (next: Level)
    requires IsLatticeLevel(level, arity, r) && arity >= 1
    ensures forall x :: x in next ==> fresh(next[x])
    ensures NextVertices(next, level, LevelView(level), arity, r)
    ensures forall x :: x in next <==> IsJoined(LevelView(level), x, arity)
    ensures IsNextLevel(LevelView(next), LevelView(level), arity, r)
  {
    hide NextVertices, JoinedUpTo, LevelView, IsJoined, IsNextLevel, AreSiblings, SortedVerticals;
    ghost var view := LevelView(level);
    var currentLevelVertices := SortedLevel(level, arity, r);
    next := map[];
    NoneYet(level, view, arity, r);
    var p := 0;
    while p < |currentLevelVertices|
      invariant 0 <= p <= |currentLevelVertices|
      invariant LevelView(level) == view && forall x :: x in next ==> fresh(next[x])
      invariant NextVertices(next, level, view, arity, r)
      invariant forall m :: 0 <= m < p ==> JoinedUpTo(next, currentLevelVertices, view, m, |currentLevelVertices|, arity)
    {
      ghost var before := next;
      var vertex1 := level[currentLevelVertices[p]];
      if vertex1.rhsCandidates == {} && !vertex1.isKeyCandidate {
        SkippedVertex(next, level, currentLevelVertices, p, arity);
      } else {
        ViewOf(level);
        next := JoinWithSiblings(next, level, arity, currentLevelVertices, p, r);
        JoinedStays(before, next, currentLevelVertices, view, p, arity);
      }
      p := p + 1;
    }
    NextIsComplete(next, level, arity, currentLevelVertices, r);
  }

  lemma JoinedStays(before: Level, next: Level, sorted: seq<Vertical>, view: map<Vertical, VertexView>, p: nat, arity: nat)
    requires before.Keys <= next.Keys
    requires forall m :: 0 <= m < p ==> JoinedUpTo(before, sorted, view, m, |sorted|, arity)
    ensures forall m :: 0 <= m < p ==> JoinedUpTo(next, sorted, view, m, |sorted|, arity)
  {
    assert forall x :: x in before ==> x in next;
    forall m | 0 <= m < p ensures JoinedUpTo(next, sorted, view, m, |sorted|, arity) {
      assert JoinedUpTo(before, sorted, view, m, |sorted|, arity);
    }
  }

  lemma NextIsComplete(next: Level, level: Level, arity: nat, sorted: seq<Vertical>, r: Relation)
    requires arity >= 1 && NextVertices(next, level, LevelView(level), arity, r)
    requires forall x :: x in sorted <==> x in level
    requires forall m :: 0 <= m < |sorted| ==> JoinedUpTo(next, sorted, LevelView(level), m, |sorted|, arity)
    ensures forall x :: x in next <==> IsJoined(LevelView(level), x, arity)
    ensures IsNextLevel(LevelView(next), LevelView(level), arity, r)
  {
    hide AreSiblings, IsJoin, JoinedUpTo, ParentsAre, IsJoined, Survives;
    var view := LevelView(level);
    ViewOf(next);
    ViewOf(level);
    forall x | IsJoined(view, x, arity) ensures x in next {
      JoinedIsThere(next, level, arity, sorted, x);
    }
    forall x: Vertical, a | |x| == arity + 1 && ParentsExist(view, x) && CommonCandidate(view, x, a) ensures x in next {
      CommonIsJoined(view, x, a, arity);
    }
  }

  lemma JoinedIsThere(next: Level, level: Level, arity: nat, sorted: seq<Vertical>, x: Vertical)
    requires forall y :: y in sorted <==> y in level
    requires forall m :: 0 <= m < |sorted| ==> JoinedUpTo(next, sorted, LevelView(level), m, |sorted|, arity)
    requires IsJoined(LevelView(level), x, arity)
    ensures x in next
  {
    hide AreSiblings, Survives;
    var view := LevelView(level);
    ViewOf(level);
    var x1, x2 :| Joins(view, x1, x2, arity) && x == x1 + x2;
    assert x1 in sorted && x2 in sorted;
    var p :| 0 <= p < |sorted| && sorted[p] == x1;
    var q :| 0 <= q < |sorted| && sorted[q] == x2;
    assert JoinedUpTo(next, sorted, view, p, |sorted|, arity);
  }

  // Nothing with a candidate common to all parents is left out.
  lemma CommonIsJoined(view: map<Vertical, VertexView>, x: Vertical, a: nat, arity: nat)
    requires arity >= 1 && |x| == arity + 1 && ParentsExist(view, x) && CommonCandidate(view, x, a)
    ensures IsJoined(view, x, arity)
  {
    hide AreSiblings;
    var x1, x2 := Decompose(x, arity);
    assert Survives(view, x1 + x2, arity);
    assert a in view[x1].rhsCandidates;
    assert Joins(view, x1, x2, arity);
  }
}
