// Scanning a set of indices in ascending order, as std::bitset and boost::dynamic_bitset do.
module Bits {
  import opened Relations

  ghost function Min(x: Vertical): (m: nat)
    requires x != {}
    ensures m in x && forall c :: c in x ==> m <= c
  {
    var c :| c in x;
    if x == {c} then c
    else
      var d := Min(x - {c});
      assert forall e :: e in x ==> e == c || e in x - {c};
      if c < d then c else d
  }

  // The part of x above a position.
  ghost function Above(x: Vertical, position: nat): Vertical {
    set c | c in x && c > position
  }

  // The part of x from a position on.
  ghost function AboveOrAt(y: Vertical, c: nat): Vertical {
    set b | b in y && b >= c
  }

  // The first index of x from position on, or size when there is none (find_first, _Find_first).
  function FindFrom(x: Vertical, position: nat, size: nat): (next: nat)
    ensures next <= size
    ensures next < size ==> position <= next && next in x
    ensures forall c :: c in x && position <= c < size ==> next <= c
    decreases size - position
  {
    if position >= size then size
    else if position in x then position
    else FindFrom(x, position + 1, size)
  }

  // The first index of x strictly above position, or size when there is none (find_next, _Find_next).
  function FindNext(x: Vertical, position: nat, size: nat): (next: nat)
    ensures next <= size
    ensures next < size ==> position < next && next in x
    ensures forall c :: c in x && position < c < size ==> next <= c
  {
    FindFrom(x, position + 1, size)
  }

  lemma AboveZero(x: Vertical)
    requires 0 !in x
    ensures Above(x, 0) == x
  {
  }
}
