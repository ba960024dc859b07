// FUN by value: free sets, cardinalities and what a level of the search knows.
module FunTheory {
  import opened Relations
  import opened Partitions
  import opened TaneTheory

  // No column of x is determined by the others.
  ghost predicate IsFree(r: Relation, x: Vertical) {
    forall b :: b in x ==> !Holds(r, x - {b}, b)
  }

  // What a left-hand side of a minimal dependency is: free, and no proper subset is a key.
  ghost predicate IsUseful(r: Relation, x: Vertical) {
    x <= r.Columns() && IsFree(r, x) && Live(r, x)
  }

  // The cardinality that the search gives to a candidate: the number of classes, and 0 for the empty set.
  ghost function Cardinality(r: Relation, x: Vertical): nat {
    if x == {} then 0 else ClassCount(r, x)
  }

  ghost function ClosureOf(r: Relation, x: Vertical): Vertical {
    set a | a in r.Columns() && Holds(r, x, a)
  }

  lemma MinimalLhsIsUseful(r: Relation, x: Vertical, a: nat)
    requires MinimalFd(r, x, a)
    ensures IsUseful(r, x)
  {
    forall b | b in x ensures !Holds(r, x - {b}, b) && !IsKey(r, x - {b}) {
      MinimalLhsIsFree(r, x, a, b);
      if IsKey(r, x - {b}) {
        KeyHolds(r, x - {b}, a);
      }
    }
  }

  lemma UsefulSubset(r: Relation, x: Vertical, b: nat)
    requires IsUseful(r, x) && b in x
    ensures IsUseful(r, x - {b}) && !IsKey(r, x - {b})
  {
    forall c | c in x - {b} ensures !Holds(r, x - {b} - {c}, c) && !IsKey(r, x - {b} - {c}) {
      if Holds(r, x - {b} - {c}, c) {
        HoldsMonotone(r, x - {b} - {c}, x - {c}, c);
      }
      if IsKey(r, x - {b} - {c}) {
        KeyMonotone(r, x - {b} - {c}, x - {b});
      }
    }
  }

  // With two columns or more each of them is no key.
  lemma UsefulColumn(r: Relation, x: Vertical, b: nat)
    requires IsUseful(r, x) && b in x && |x| >= 2
    ensures !IsKey(r, {b})
  {
    assert |x - {b}| >= 1;
    var c :| c in x - {b} by {
      assert x - {b} != {};
    }
    if IsKey(r, {b}) {
      KeyMonotone(r, {b}, x - {c});
    }
  }

  // A useful set has another cardinality than each of its proper subsets.
  lemma UsefulGrows(r: Relation, s: Vertical, x: Vertical)
    requires IsUseful(r, x) && s < x && |r.rows| > 0
    ensures Cardinality(r, s) != Cardinality(r, x)
  {
    ClassCountPositive(r, x);
    if s != {} {
      ClassCountDecides(r, s, x);
      var b :| b in x && b !in s;
      if Holds(r, s, b) {
        HoldsMonotone(r, s, x - {b}, b);
      }
    }
  }

  lemma ClassCountPositive(r: Relation, x: Vertical)
    requires |r.rows| > 0 && x <= r.Columns()
    ensures ClassCount(r, x) >= 1
  {
    OneClassOfNothing(r);
    ClassCountDecides(r, {}, x);
  }

  // A column set is a key exactly when every row is a class of its own.
  lemma CardinalityDecidesKey(r: Relation, x: Vertical)
    requires x <= r.Columns()
    ensures ClassCount(r, x) <= |r.rows|
    ensures ClassCount(r, x) == |r.rows| <==> IsKey(r, x)
  {
    var leaders, rows := Leaders(r, x), UpTo(|r.rows|);
    SubsetSize(leaders, rows);
    if leaders == rows {
      forall i: nat, j: nat | r.IsRow(i) && r.IsRow(j) && i != j ensures !r.Agree(x, i, j) {
        TogetherSymmetric(r, x, i, j);
        assert i in rows && j in rows;
        assert i in leaders && j in leaders;
        assert i < j ==> !Together(r, x, i, j);
        assert j < i ==> !Together(r, x, j, i);
      }
    }
    if IsKey(r, x) {
      forall i | i in rows ensures i in leaders {
        assert forall j: nat :: j < i ==> !Together(r, x, j, i);
      }
      assert leaders == rows;
    }
  }

  lemma ConstantCardinality(r: Relation, a: nat)
    requires a in r.Columns() && |r.rows| > 0
    ensures ClassCount(r, {a}) == 1 <==> IsConstant(r, a)
  {
    OneClassOfNothing(r);
    ClassCountDecides(r, {}, {a});
    assert IsConstant(r, a) <==> forall b :: b in {a} ==> Holds(r, {}, b);
  }

  // A set that is no key determines no key column, and the cardinality tells what else it determines.
  lemma CardinalityDecidesFd(r: Relation, x: Vertical, a: nat)
    requires x + {a} <= r.Columns()
    ensures ClassCount(r, x + {a}) == ClassCount(r, x) <==> Holds(r, x, a)
  {
    ClassCountDecides(r, x, x + {a});
    forall b | b in x ensures Holds(r, x, b) {
      MemberHolds(r, x, b);
    }
    assert (forall b :: b in x + {a} ==> Holds(r, x, b)) <==> Holds(r, x, a);
  }

  lemma NonKeyDeterminesNoKey(r: Relation, x: Vertical, a: nat)
    requires x <= r.Columns() && !IsKey(r, x) && IsKey(r, {a})
    ensures !Holds(r, x, a)
  {
    if Holds(r, x, a) {
      DeterminesKey(r, x, {a});
    }
  }
}
