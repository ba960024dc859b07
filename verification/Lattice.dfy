// The lattice of TANE: vertices with candidate sets and flags, the order of a level and the prefix join.
module Lattice {
  import opened Relations
  import opened Bits
  import opened Options
  import opened PositionListIndexes
  import opened TaneTheory

  // ----- the order of the vertices of a level -----

  // Compares the column indices of two verticals in ascending order from a position on.
  function ComesFirst(x: Vertical, y: Vertical, position: nat, n: nat): (before: bool)
    requires position <= n
    ensures before <==> exists d :: position <= d < n && FirstDifference(x, y, position, d) && d in x
    decreases n - position
  {
    var i, j := FindFrom(x, position, n), FindFrom(y, position, n);
    if i != j then
      assert FirstDifference(x, y, position, if i < j then i else j);
      i < j
    else if i >= n then false
    else
      DifferencesFrom(x, y, position, i, n);
      ComesFirst(x, y, i + 1, n)
  }

  // d is the lowest column from position on that only one of the verticals has.
  ghost predicate FirstDifference(x: Vertical, y: Vertical, position: nat, d: nat) {
    && (d in x) != (d in y)
    && forall c: nat :: position <= c < d ==> (c in x <==> c in y)
  }

  lemma DifferencesFrom(x: Vertical, y: Vertical, position: nat, i: nat, n: nat)
    requires position <= i < n && i in x && i in y
    requires forall c :: position <= c < i ==> c !in x && c !in y
    ensures forall d :: position <= d < n ==> (FirstDifference(x, y, position, d) <==> i < d && FirstDifference(x, y, i + 1, d))
  {
  }

  // The first arity - 1 columns are the same and the last column of x is the smaller one.
  function SharePrefix(x: Vertical, y: Vertical, position: nat, rest: nat, n: nat): (share: bool)
    requires position <= n
    decreases rest
  {
    var i, j := FindFrom(x, position, n), FindFrom(y, position, n);
    if rest == 0 then i < j
    else i == j && i < n && SharePrefix(x, y, i + 1, rest - 1, n)
  }

  // x and y extend the same prefix by a smaller and by a larger last column.
  ghost predicate Siblings(x: Vertical, y: Vertical, a: nat, b: nat) {
    && a in x && b in y && a < b && x - {a} == y - {b}
    && forall c :: c in x - {a} ==> c < a
  }

  ghost predicate AreSiblings(x: Vertical, y: Vertical) {
    exists a: nat, b: nat :: Siblings(x, y, a, b)
  }

  lemma {:induction false} SharePrefixMeans(x: Vertical, y: Vertical, position: nat, rest: nat, n: nat)
    requires position <= n && (forall c :: c in x ==> c < n) && forall c :: c in y ==> c < n
    requires |AboveOrAt(x, position)| == |AboveOrAt(y, position)| == rest + 1
    ensures SharePrefix(x, y, position, rest, n) <==> AreSiblings(AboveOrAt(x, position), AboveOrAt(y, position))
    decreases rest
  {
    hide AboveOrAt, AreSiblings;
    var i, j := FindFrom(x, position, n), FindFrom(y, position, n);
    FirstOfTail(x, position, n);
    FirstOfTail(y, position, n);
    var sx, sy := AboveOrAt(x, i + 1), AboveOrAt(y, j + 1);
    if rest == 0 {
      SiblingSingletons(sx, sy, i, j);
    } else {
      SiblingsBehindHeads(sx, sy, i, j);
      if i == j {
        SharePrefixMeans(x, y, i + 1, rest - 1, n);
      }
    }
  }

  lemma SiblingSingletons(x: Vertical, y: Vertical, i: nat, j: nat)
    requires |x| == 0 && |y| == 0
    ensures AreSiblings({i} + x, {j} + y) <==> i < j
  {
    assert x == {} && y == {};
    if i < j {
      assert Siblings({i} + x, {j} + y, i, j);
    }
  }

  lemma SiblingsBehindHeads(x: Vertical, y: Vertical, i: nat, j: nat)
    requires |x| >= 1 && |y| >= 1 && i !in x && j !in y
    requires (forall c :: c in x ==> i < c) && forall c :: c in y ==> j < c
    ensures AreSiblings({i} + x, {j} + y) <==> i == j && AreSiblings(x, y)
  {
    if a, b :| Siblings({i} + x, {j} + y, a, b) {
      HeadsAgree({i} + x, {j} + y, a, b, i, j);
      SiblingsBehindHead(x, y, i, a, b);
    }
    if a, b :| i == j && Siblings(x, y, a, b) {
      SiblingsBehindHead(x, y, i, a, b);
    }
  }

  lemma SiblingsBehindHead(x: Vertical, y: Vertical, i: nat, a: nat, b: nat)
    requires x != {} && (forall c :: c in x ==> i < c) && (forall c :: c in y ==> i < c)
    ensures Siblings({i} + x, {i} + y, a, b) <==> Siblings(x, y, a, b)
  {
    if Siblings(x, y, a, b) {
      assert {i} + x - {a} == {i} + (x - {a}) && {i} + y - {b} == {i} + (y - {b});
    }
    if Siblings({i} + x, {i} + y, a, b) {
      PrefixHead({i} + x, a, i);
      assert x - {a} == {i} + x - {a} - {i} && y - {b} == {i} + y - {b} - {i};
    }
  }

  lemma HeadsAgree(x: Vertical, y: Vertical, a: nat, b: nat, i: nat, j: nat)
    requires Siblings(x, y, a, b) && |x| >= 2
    requires i in x && forall c :: c in x ==> i <= c
    requires j in y && forall c :: c in y ==> j <= c
    ensures i == j
  {
    PrefixHead(x, a, i);
    assert i in x - {a};
    assert i in y && j <= i < a < b;
    assert j in y - {b};
  }

  lemma FirstOfTail(x: Vertical, position: nat, n: nat)
    requires position <= n && forall c :: c in x ==> c < n
    requires |AboveOrAt(x, position)| >= 1
    ensures var i := FindFrom(x, position, n); var rest := AboveOrAt(x, i + 1);
      && i < n && i in x && AboveOrAt(x, position) == {i} + rest
      && |rest| == |AboveOrAt(x, position)| - 1
      && i !in rest && forall c :: c in rest ==> i < c
  {
    var tail := AboveOrAt(x, position);
    var c :| c in tail by {
      assert tail != {};
    }
    var i := FindFrom(x, position, n);
    TailSplits(x, position, i);
    assert |tail| == |{i}| + |AboveOrAt(x, i + 1)|;
  }

  lemma TailSplits(x: Vertical, position: nat, i: nat)
    requires i in x && position <= i && forall c :: c in x && position <= c ==> i <= c
    ensures AboveOrAt(x, position) == {i} + AboveOrAt(x, i + 1)
  {
  }

  lemma Singleton(x: Vertical, i: nat)
    requires |x| == 1 && i in x
    ensures x == {i}
  {
    assert |x - {i}| == 0;
    assert x == (x - {i}) + {i};
  }

  lemma PrefixHead(x: Vertical, a: nat, i: nat)
    requires a in x && i in x && |x| >= 2
    requires forall c :: c in x - {a} ==> c < a
    requires forall c :: c in x ==> i <= c
    ensures i != a
  {
    assert |x - {a}| >= 1;
    var c :| c in x - {a};
  }

  // ----- sorting a level -----

  ghost predicate SortedVerticals(s: seq<Vertical>, n: nat) {
    forall i, j :: 0 <= i < j < |s| ==> s[i] != s[j] && ComesFirst(s[i], s[j], 0, n)
  }

  lemma ComesFirstTotal(x: Vertical, y: Vertical, n: nat)
    requires x != y && (forall c :: c in x ==> c < n) && forall c :: c in y ==> c < n
    ensures ComesFirst(x, y, 0, n) != ComesFirst(y, x, 0, n)
  {
    var d := LowestDifference(x, y, 0, n);
    assert FirstDifference(x, y, 0, d) && FirstDifference(y, x, 0, d);
    forall e | 0 <= e < n && FirstDifference(x, y, 0, e) ensures e == d {
    }
  }

  lemma {:induction false} LowestDifference(x: Vertical, y: Vertical, position: nat, n: nat) returns (d: nat)
    requires exists c :: position <= c < n && (c in x) != (c in y)
    ensures position <= d < n && FirstDifference(x, y, position, d)
    decreases n - position
  {
    if (position in x) != (position in y) {
      d := position;
    } else {
      d := LowestDifference(x, y, position + 1, n);
    }
  }

  lemma ComesFirstTransitive(x: Vertical, y: Vertical, z: Vertical, n: nat)
    requires ComesFirst(x, y, 0, n) && ComesFirst(y, z, 0, n)
    ensures ComesFirst(x, z, 0, n)
  {
    var d :| 0 <= d < n && FirstDifference(x, y, 0, d) && d in x;
    var e :| 0 <= e < n && FirstDifference(y, z, 0, e) && e in y;
    assert FirstDifference(x, z, 0, if d < e then d else e);
  }

  // What lies between two siblings shares their prefix.
  lemma BetweenSiblings(x: Vertical, y: Vertical, z: Vertical, n: nat)
    requires AreSiblings(x, z) && |x| == |y| && x != y
    requires (forall c :: c in x ==> c < n) && (forall c :: c in y ==> c < n) && forall c :: c in z ==> c < n
    requires ComesFirst(x, y, 0, n) && (y == z || ComesFirst(y, z, 0, n))
    ensures AreSiblings(x, y)
  {
    if y != z {
      var a, b :| Siblings(x, z, a, b);
      var d :| 0 <= d < n && FirstDifference(x, y, 0, d) && d in x;
      var e :| 0 <= e < n && FirstDifference(y, z, 0, e) && e in y;
      PrefixBetween(x, y, z, a, b, d, e);
      OneMore(x, y, a);
    }
  }

  lemma OneMore(x: Vertical, y: Vertical, a: nat)
    requires a in x && |x| == |y| && x - {a} <= y && FirstDifference(x, y, 0, a)
    requires forall c :: c in x - {a} ==> c < a
    ensures AreSiblings(x, y)
  {
    var p := x - {a};
    assert y == p + (y - p);
    var c :| c in y - p by {
      assert |y - p| == 1;
      assert y - p != {};
    }
    Singleton(y - p, c);
    assert y - {c} == p;
    assert Siblings(x, y, a, c);
  }

  lemma PrefixBetween(x: Vertical, y: Vertical, z: Vertical, a: nat, b: nat, d: nat, e: nat)
    requires Siblings(x, z, a, b)
    requires FirstDifference(x, y, 0, d) && d in x && FirstDifference(y, z, 0, e) && e in y
    ensures x - {a} <= y && d == a
  {
    assert d != a ==> d in x - {a} && d in z - {b} && d < a;
    assert d != a ==> e < d;
    assert e < d ==> e in x;
    assert e in x && e != a ==> e in x - {a} && e in z - {b};
  }

  // ----- vertices -----

  class LatticeVertex {
    const vertical: Vertical
    var positionListIndex: Option<PositionListIndex>
    var rhsCandidates: Vertical
    var isKeyCandidate: bool
    var parents: seq<LatticeVertex>
    var isInvalid: bool

    constructor (vertical: Vertical)
      ensures this.vertical == vertical && positionListIndex == None && rhsCandidates == {} && parents == []
      ensures !isKeyCandidate && !isInvalid
    {
      this.vertical := vertical;
      positionListIndex, rhsCandidates, parents := None, {}, [];
      isKeyCandidate, isInvalid := false, false;
    }

    ghost function View(): VertexView
      reads this
    {
      Vertex(rhsCandidates, isKeyCandidate, isInvalid)
    }
  }

  type Level = map<Vertical, LatticeVertex>

  ghost function LevelView(level: Level): map<Vertical, VertexView>
    reads level.Values
  {
    map x | x in level :: level[x].View()
  }

  ghost predicate IsLatticeLevel(level: Level, arity: nat, r: Relation) {
    forall x :: x in level ==> level[x].vertical == x && |x| == arity && x <= r.Columns()
  }

  // std::sort of the vertices of a level.
  method SortedLevel(level: Level, ghost arity: nat, r: Relation) returns (sorted: seq<Vertical>)
    requires IsLatticeLevel(level, arity, r)
    ensures SortedVerticals(sorted, r.numColumns)
    ensures forall x :: x in sorted <==> x in level
  {
    sorted := [];
    var keys := level.Keys;
    while keys != {}
      invariant keys <= level.Keys
      invariant SortedVerticals(sorted, r.numColumns)
      invariant forall x :: x in sorted <==> x in level && x !in keys
      decreases keys
    {
      var x :| x in keys;
      var i := 0;
      while i < |sorted| && ComesFirst(sorted[i], x, 0, r.numColumns)
        invariant 0 <= i <= |sorted|
        invariant forall k :: 0 <= k < i ==> ComesFirst(sorted[k], x, 0, r.numColumns)
      {
        i := i + 1;
      }
      InsertKeepsOrder(sorted, x, i, r.numColumns);
      sorted := sorted[..i] + [x] + sorted[i..];
      keys := keys - {x};
    }
  }

  lemma InsertKeepsOrder(s: seq<Vertical>, x: Vertical, i: nat, n: nat)
    requires SortedVerticals(s, n) && i <= |s| && x !in s
    requires (forall c :: c in x ==> c < n) && forall y, c :: y in s && c in y ==> c < n
    requires forall k :: 0 <= k < i ==> ComesFirst(s[k], x, 0, n)
    requires i < |s| ==> !ComesFirst(s[i], x, 0, n)
    ensures SortedVerticals(s[..i] + [x] + s[i..], n)
    ensures forall y :: y in s[..i] + [x] + s[i..] <==> y in s || y == x
  {
    assert s == s[..i] + s[i..];
    if i < |s| {
      ComesFirstTotal(s[i], x, n);
      forall k | i < k < |s| ensures ComesFirst(x, s[k], 0, n) {
        ComesFirstTransitive(x, s[i], s[k], n);
      }
    }
  }
}
