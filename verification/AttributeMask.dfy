// The attribute mask of FDep: (2 << n) - 1 computed in int, and the bits that a bitset gets from it.
module AttributeMasks {
  import opened Relations
  import opened Options
  import opened FdCover

  const INT_MAX: nat := 0x7FFF_FFFF

  // The number of columns from which on 2 << n is no int.
  const MASK_LIMIT: nat := 30

  // 2 << n without a bound on the width.
  function Shifted(n: nat): (r: nat)
    ensures r >= 2
  {
    if n == 0 then 2 else 2 * Shifted(n - 1)
  }

  // The value of the expression, where it has one.
  function MaskOf(n: nat): (mask: Option<nat>) {
    if Shifted(n) <= INT_MAX then Some(Shifted(n) - 1) else None
  }

  function Raised(x: Vertical): (y: Vertical)
    ensures forall c: nat :: c in y <==> c > 0 && c - 1 in x
  {
    var y := set c | c in x :: c + 1;
    assert forall b: nat :: b in x ==> b + 1 in y;
    y
  }

  // The positions of the ones of a number.
  function BitsOf(mask: nat): (bits: Vertical) {
    if mask == 0 then {} else (if mask % 2 == 1 then {0} else {}) + Raised(BitsOf(mask / 2))
  }

  lemma {:induction false} ShiftedGrows(m: nat, n: nat)
    requires m <= n
    ensures Shifted(m) <= Shifted(n)
  {
    if m < n {
      ShiftedGrows(m, n - 1);
    }
  }

  lemma FiveMore(n: nat)
    ensures Shifted(n + 5) == 32 * Shifted(n)
  {
    assert Shifted(n + 1) == 2 * Shifted(n) && Shifted(n + 2) == 2 * Shifted(n + 1);
    assert Shifted(n + 3) == 2 * Shifted(n + 2) && Shifted(n + 4) == 2 * Shifted(n + 3);
  }

  lemma ShiftedAtLimit()
    ensures Shifted(MASK_LIMIT) == INT_MAX + 1 && Shifted(MASK_LIMIT - 1) == 0x4000_0000
  {
    FiveMore(0);
    FiveMore(5);
    FiveMore(10);
    FiveMore(15);
    FiveMore(20);
    FiveMore(25);
  }

  // The shift stays within int exactly below the limit.
  lemma MaskFits(n: nat)
    ensures MaskOf(n).Some? <==> n < MASK_LIMIT
  {
    ShiftedAtLimit();
    if n < MASK_LIMIT {
      ShiftedGrows(n, 29);
    } else {
      ShiftedGrows(30, n);
    }
  }

  // The smallest table that the mask has no value for.
  lemma ThirtyColumns()
    ensures MaskOf(30) == None && MaskOf(29) == Some(INT_MAX / 2)
  {
    ShiftedAtLimit();
  }

  // Where it has a value, the mask has a one for every attribute and for the unused position 0.
  lemma MaskIsUniverse(n: nat)
    requires MaskOf(n).Some?
    ensures BitsOf(MaskOf(n).value) - {0} == Universe(n)
  {
    hide BitsOf, Shifted, UpTo;
    OnesUpTo(n);
    assert MaskOf(n).value == Shifted(n) - 1;
  }

  lemma {:induction false} OnesUpTo(n: nat)
    ensures BitsOf(Shifted(n) - 1) == UpTo(n + 1)
  {
    hide BitsOf;
    var half := if n == 0 then 0 else Shifted(n - 1) - 1;
    assert Shifted(n) - 1 == 2 * half + 1;
    if n > 0 {
      OnesUpTo(n - 1);
    } else {
      NoBits();
    }
    OddBits(half);
    assert {0} + Raised(UpTo(n)) == UpTo(n + 1);
    assert n == 0 ==> UpTo(n) == {};
  }

  lemma NoBits()
    ensures BitsOf(0) == {}
  {
  }

  lemma OddBits(half: nat)
    ensures BitsOf(2 * half + 1) == {0} + Raised(BitsOf(half))
  {
    assert (2 * half + 1) / 2 == half && (2 * half + 1) % 2 == 1;
  }
}
