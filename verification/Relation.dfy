// Relations, verticals and the meaning of a (minimal) functional dependency.
// Every discovery engine of the project is proved against the definitions of this module.
module Relations {

  // A vertical is a set of column indices (src/model/vertical.h keeps it as a bitset).
  type Vertical = set<nat>

  const NULL_VALUE_ID: int := -1

  predicate IsBelow(c: nat, n: nat) {
    c < n
  }

  function UpTo(n: nat): (s: Vertical)
    ensures forall c: nat :: c in s <==> c < n
    ensures |s| == n
  {
    var s := set c: nat | c < n && IsBelow(c, n);
    UpToSize(s, n);
    s
  }

  lemma {:induction false} UpToSize(s: Vertical, n: nat)
    requires forall c: nat :: c in s <==> c < n
    ensures |s| == n
  {
    if n == 0 {
      assert s == {};
    } else {
      UpToSize(s - {n - 1}, n - 1);
    }
  }

  datatype Fd = Fd(lhs: Vertical, rhs: nat)

  datatype RawRelation = Relation(numColumns: nat, rows: seq<seq<int>>, nullEqNull: bool) {
    predicate Valid() {
      forall i :: 0 <= i < |rows| ==> |rows[i]| == numColumns
    }

    function Columns(): Vertical {
      UpTo(numColumns)
    }

    predicate IsRow(i: int) {
      0 <= i < |rows|
    }

    // Two rows carry the same value in a column; a null equals another null only on request.
    predicate Same(i: nat, j: nat, c: nat)
      requires Valid() && IsRow(i) && IsRow(j) && c < numColumns
    {
      i == j || (rows[i][c] == rows[j][c] && (nullEqNull || rows[i][c] != NULL_VALUE_ID))
    }

    function AgreeSet(i: nat, j: nat): Vertical
      requires Valid() && IsRow(i) && IsRow(j)
    {
      set c | c in Columns() && Same(i, j, c)
    }

    ghost predicate Agree(x: Vertical, i: nat, j: nat)
      requires Valid() && IsRow(i) && IsRow(j)
    {
      x <= AgreeSet(i, j)
    }
  }

  type Relation = r: RawRelation | r.Valid() witness Relation(0, [], true)

  // lhs -> rhs: rows that agree on lhs agree on rhs.
  ghost predicate Holds(r: Relation, lhs: Vertical, rhs: nat) {
    forall i: nat, j: nat :: r.IsRow(i) && r.IsRow(j) && r.Agree(lhs, i, j) ==> rhs in r.AgreeSet(i, j)
  }

  ghost predicate MinimalFd(r: Relation, lhs: Vertical, rhs: nat) {
    && rhs in r.Columns() && lhs <= r.Columns() - {rhs}
    && Holds(r, lhs, rhs)
    && forall sub: Vertical :: sub < lhs ==> !Holds(r, sub, rhs)
  }

  ghost predicate NoDuplicates<T>(s: seq<T>) {
    forall i, j :: 0 <= i < j < |s| ==> s[i] != s[j]
  }

  lemma HasMember<T>(s: seq<T>)
    ensures s == [] || exists e :: e in s
  {
    assert s != [] ==> s[0] in s;
  }

  // What an engine promises: its list of FDs has each minimal FD exactly once and nothing else.
  ghost predicate ListsMinimalFds(fds: seq<Fd>, r: Relation) {
    && NoDuplicates(fds)
    && forall x: Vertical, a: nat :: Fd(x, a) in fds <==> MinimalFd(r, x, a)
  }

  ghost predicate IsKey(r: Relation, x: Vertical) {
    forall i: nat, j: nat :: r.IsRow(i) && r.IsRow(j) && i != j ==> !r.Agree(x, i, j)
  }

  ghost predicate IsConstant(r: Relation, a: nat) {
    Holds(r, {}, a)
  }

  // ----- what rows agree on, by their values -----

  lemma AgreeOnValues(r: Relation, x: Vertical, i: nat, j: nat)
    requires r.IsRow(i) && r.IsRow(j) && i != j && x <= r.Columns()
    ensures r.Agree(x, i, j) <==>
      forall c :: c in x ==> r.rows[i][c] == r.rows[j][c] && (r.nullEqNull || r.rows[i][c] != NULL_VALUE_ID)
  {
    forall c | c in x ensures c in r.AgreeSet(i, j) <==>
      r.rows[i][c] == r.rows[j][c] && (r.nullEqNull || r.rows[i][c] != NULL_VALUE_ID)
    {
    }
    assert r.Agree(x, i, j) <==> forall c :: c in x ==> c in r.AgreeSet(i, j);
  }

  // With nulls that differ a row with a null agrees with no other row on its column.
  lemma NullAgreesWithNone(r: Relation, x: Vertical, c: nat, i: nat, j: nat)
    requires !r.nullEqNull && r.IsRow(i) && r.IsRow(j) && i != j && c in r.Columns() && r.rows[i][c] == NULL_VALUE_ID
    requires c in x && x <= r.Columns()
    ensures !r.Agree(x, i, j) && !r.Agree(x, j, i)
  {
    AgreeOnValues(r, x, i, j);
    AgreeOnValues(r, x, j, i);
  }

  // A column of nulls that differ is a key, and not constant once there are two rows; with equal nulls it is constant.
  lemma NullColumn(r: Relation, c: nat)
    requires c in r.Columns() && forall i :: 0 <= i < |r.rows| ==> r.rows[i][c] == NULL_VALUE_ID
    ensures IsKey(r, {c}) <==> !r.nullEqNull || |r.rows| < 2
    ensures IsConstant(r, c) <==> r.nullEqNull || |r.rows| < 2
  {
    forall i: nat, j: nat | r.IsRow(i) && r.IsRow(j) && i != j
      ensures (r.Agree({c}, i, j) <==> r.nullEqNull) && (c in r.AgreeSet(i, j) <==> r.nullEqNull)
    {
      AgreeOnValues(r, {c}, i, j);
    }
    if |r.rows| >= 2 {
      assert r.IsRow(0) && r.IsRow(1) && r.Agree({}, 0, 1);
    }
    forall i: nat | r.IsRow(i) ensures c in r.AgreeSet(i, i) {
    }
  }

  lemma AgreeTransitive(r: Relation, x: Vertical, i: nat, j: nat, k: nat)
    requires r.IsRow(i) && r.IsRow(j) && r.IsRow(k)
    requires r.Agree(x, i, j)
    ensures r.Agree(x, j, i)
    ensures r.Agree(x, j, k) ==> r.Agree(x, i, k)
  {
    forall c | c in x ensures c in r.AgreeSet(j, i) {
      assert c in r.AgreeSet(i, j);
    }
    if r.Agree(x, j, k) {
      forall c | c in x ensures c in r.AgreeSet(i, k) {
        assert c in r.AgreeSet(i, j) && c in r.AgreeSet(j, k);
      }
    }
  }

  lemma HoldsMonotone(r: Relation, x: Vertical, y: Vertical, a: nat)
    requires Holds(r, x, a) && x <= y
    ensures Holds(r, y, a)
  {
  }

  // Armstrong's pseudo-transitivity, in the one form the engines use.
  lemma HoldsThrough(r: Relation, x: Vertical, b: nat, a: nat)
    requires Holds(r, x, b) && Holds(r, x + {b}, a)
    ensures Holds(r, x, a)
  {
  }

  lemma MemberHolds(r: Relation, x: Vertical, a: nat)
    requires a in x
    ensures Holds(r, x, a)
  {
  }

  lemma KeyHolds(r: Relation, x: Vertical, a: nat)
    requires IsKey(r, x) && a in r.Columns()
    ensures Holds(r, x, a)
  {
  }

  // A set that determines every column of a key is a key.
  lemma DeterminesKey(r: Relation, x: Vertical, k: Vertical)
    requires IsKey(r, k)
    requires forall a :: a in k ==> Holds(r, x, a)
    ensures IsKey(r, x)
  {
    forall i: nat, j: nat | r.IsRow(i) && r.IsRow(j) && r.Agree(x, i, j) ensures r.Agree(k, i, j) {
      forall a | a in k ensures a in r.AgreeSet(i, j) {
        assert Holds(r, x, a);
      }
    }
  }

  lemma KeyMonotone(r: Relation, k: Vertical, x: Vertical)
    requires IsKey(r, k) && k <= x
    ensures IsKey(r, x)
  {
    forall i: nat, j: nat | r.IsRow(i) && r.IsRow(j) && i != j ensures !r.Agree(x, i, j) {
      assert !r.Agree(k, i, j);
    }
  }

  // It is enough to look at the immediate subsets of a left-hand side.
  lemma MinimalByDropping(r: Relation, x: Vertical, a: nat)
    requires a in r.Columns() && x <= r.Columns() - {a} && Holds(r, x, a)
    requires forall b :: b in x ==> !Holds(r, x - {b}, a)
    ensures MinimalFd(r, x, a)
  {
    forall sub: Vertical | sub < x ensures !Holds(r, sub, a) {
      var b :| b in x && b !in sub;
      if Holds(r, sub, a) {
        HoldsMonotone(r, sub, x - {b}, a);
      }
    }
  }

  // Every determining set contains a minimal one.
  lemma {:induction false} MinimalInside(r: Relation, x: Vertical, a: nat) returns (y: Vertical)
    requires a in r.Columns() && x <= r.Columns() - {a} && Holds(r, x, a)
    ensures y <= x && MinimalFd(r, y, a)
    decreases x
  {
    if b :| b in x && Holds(r, x - {b}, a) {
      y := MinimalInside(r, x - {b}, a);
    } else {
      MinimalByDropping(r, x, a);
      y := x;
    }
  }
}
