// Which corrections of the members that miss a set are still to be looked at, for nested loops over both.
module Corrections {
  import opened Relations
  import opened Transversals

  ghost function Firsts(invalid: seq<Vertical>, i: nat): set<Vertical>
    requires i <= |invalid|
  {
    set x | x in invalid[..i]
  }

  lemma FirstsStep(invalid: seq<Vertical>, i: nat)
    requires i < |invalid| && NoDuplicates(invalid)
    ensures Firsts(invalid, i + 1) == Firsts(invalid, i) + {invalid[i]} && invalid[i] !in Firsts(invalid, i)
    ensures invalid[i] in invalid
  {
    assert invalid[..i + 1] == invalid[..i] + [invalid[i]];
    assert invalid[i] !in invalid[..i];
  }

  lemma FirstsAll(invalid: seq<Vertical>)
    ensures Firsts(invalid, 0) == {} && forall x :: x in Firsts(invalid, |invalid|) <==> x in invalid
    ensures forall s :: Pending(invalid, 0, s) == {}
  {
    assert invalid[..|invalid|] == invalid;
  }

  ghost function Pending(invalid: seq<Vertical>, i: nat, s: Vertical): set<(Vertical, nat)>
    requires i <= |invalid|
  {
    set x, b | x in invalid[..i] && b in s :: (x, b)
  }

  lemma PendingStep(invalid: seq<Vertical>, i: nat, s: Vertical)
    requires i < |invalid|
    ensures Pending(invalid, i + 1, s) == Pending(invalid, i, s) + (set b | b in s :: (invalid[i], b))
  {
    assert invalid[..i + 1] == invalid[..i] + [invalid[i]];
  }

  // Corrections still to be looked at: of the members from i on, and of member i from column c on.
  ghost function Rest(invalid: seq<Vertical>, i: nat, c: nat, s: Vertical): set<(Vertical, nat)>
    requires i <= |invalid|
  {
    (set x, b | x in invalid[i..] && b in s && (i < |invalid| && x == invalid[i] ==> b >= c) :: (x, b))
  }

  lemma RestStart(invalid: seq<Vertical>, s: Vertical)
    ensures Rest(invalid, 0, 0, s) == Pending(invalid, |invalid|, s)
  {
    assert invalid[..|invalid|] == invalid == invalid[0..];
  }

  lemma RestNextColumn(invalid: seq<Vertical>, i: nat, c: nat, next: nat, s: Vertical)
    requires i < |invalid| && c in s && c < next && forall b :: b in s && c < b ==> next <= b
    ensures Rest(invalid, i, next, s) == Rest(invalid, i, c, s) - {(invalid[i], c)}
  {
    assert invalid[i] in invalid[i..];
  }

  lemma RestSkipColumn(invalid: seq<Vertical>, i: nat, c: nat, s: Vertical)
    requires i < |invalid| && c !in s
    ensures Rest(invalid, i, c + 1, s) == Rest(invalid, i, c, s)
  {
  }

  lemma RestNextMember(invalid: seq<Vertical>, i: nat, c: nat, s: Vertical)
    requires i < |invalid| && NoDuplicates(invalid) && forall b :: b in s ==> b < c
    ensures Rest(invalid, i, c, s) == Rest(invalid, i + 1, 0, s)
  {
    assert invalid[i..] == [invalid[i]] + invalid[i + 1..];
    assert invalid[i] !in invalid[i + 1..];
  }

  lemma RestFirstColumn(invalid: seq<Vertical>, i: nat, c: nat, s: Vertical)
    requires i < |invalid| && forall b :: b in s ==> c <= b
    ensures Rest(invalid, i, 0, s) == Rest(invalid, i, c, s)
  {
  }

  lemma RestNothing(invalid: seq<Vertical>, s: Vertical)
    ensures Rest(invalid, |invalid|, 0, s) == {}
  {
  }
}
