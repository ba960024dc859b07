// The order on verticals: operator< looks at the lowest column that only one of the two has.
module Verticals {
  import opened Relations
  import opened Bits

  function Less(x: Vertical, y: Vertical, n: nat): (less: bool) {
    var d := FindFrom((x - y) + (y - x), 0, n);
    d < n && d in y
  }

  // d is the lowest column that only one of x and y has.
  ghost predicate FirstDifferent(x: Vertical, y: Vertical, d: nat) {
    (d in x) != (d in y) && forall c: nat :: c < d ==> (c in x <==> c in y)
  }

  lemma LessMeans(x: Vertical, y: Vertical, n: nat)
    requires x <= UpTo(n) && y <= UpTo(n)
    ensures Less(x, y, n) <==> exists d: nat :: FirstDifferent(x, y, d) && d in y
  {
    var d := FindFrom((x - y) + (y - x), 0, n);
    if x != y {
      assert (x - y) + (y - x) != {};
      assert FirstDifferent(x, y, d);
    }
  }

  // A strict total order ...
  lemma LessIsTotal(x: Vertical, y: Vertical, n: nat)
    requires x <= UpTo(n) && y <= UpTo(n)
    ensures x != y ==> Less(x, y, n) != Less(y, x, n)
    ensures !Less(x, x, n)
  {
    assert (x - y) + (y - x) == (y - x) + (x - y);
    assert (x - x) + (x - x) == {};
    if x != y {
      assert (x - y) + (y - x) != {};
    }
  }

  lemma LessIsTransitive(x: Vertical, y: Vertical, z: Vertical, n: nat)
    requires x <= UpTo(n) && y <= UpTo(n) && z <= UpTo(n)
    requires Less(x, y, n) && Less(y, z, n)
    ensures Less(x, z, n)
  {
    LessMeans(x, y, n);
    LessMeans(y, z, n);
    LessMeans(x, z, n);
    var d: nat :| FirstDifferent(x, y, d) && d in y;
    var e: nat :| FirstDifferent(y, z, e) && e in z;
    assert FirstDifferent(x, z, if d < e then d else e);
  }

  // ... that puts every set behind its proper subsets.
  lemma SubsetIsLess(x: Vertical, y: Vertical, n: nat)
    requires x < y && y <= UpTo(n)
    ensures Less(x, y, n) && !Less(y, x, n)
  {
    assert (x - y) + (y - x) == y - x && y - x != {};
    LessIsTotal(x, y, n);
  }

  lemma LessIsNoSuperset(x: Vertical, y: Vertical, n: nat)
    requires x <= UpTo(n) && y <= UpTo(n) && Less(x, y, n)
    ensures !(y <= x)
  {
    LessIsTotal(x, y, n);
    if y < x {
      SubsetIsLess(y, x, n);
    }
  }
}
