// The Levenshtein distance: the least number of single-character edits, and a metric.
module Levenshteins {

  ghost function Butlast(s: string): string
    requires s != []
  {
    s[..|s| - 1]
  }

  // One insertion, deletion or substitution between two common ends.
  ghost predicate EditedAt(s: string, t: string, p: string, a: string, b: string, q: string) {
    s == p + a + q && t == p + b + q && |a| <= 1 && |b| <= 1 && a != b
  }

  ghost predicate IsEdit(s: string, t: string) {
    exists p, a, b, q :: EditedAt(s, t, p, a, b, q)
  }

  // n edits lead from s to t.
  ghost predicate Reaches(s: string, t: string, n: nat)
    decreases n
  {
    if n == 0 then s == t else exists u: string :: IsEdit(s, u) && Reaches(u, t, n - 1)
  }

  ghost predicate IsLeastEdits(s: string, t: string, n: nat) {
    Reaches(s, t, n) && forall m: nat :: Reaches(s, t, m) ==> n <= m
  }

  function Min3(a: nat, b: nat, c: nat): nat {
    if a <= b && a <= c then a else if b <= c then b else c
  }

  // The recurrence of the dynamic program, on prefixes.
  ghost function Distance(s: string, t: string): nat
    decreases |s| + |t|
  {
    if s == [] then |t|
    else if t == [] then |s|
    else Min3(Distance(Butlast(s), t) + 1, Distance(s, Butlast(t)) + 1,
              Distance(Butlast(s), Butlast(t)) + if s[|s| - 1] == t[|t| - 1] then 0 else 1)
  }

  // ----- the dynamic program with two rows -----

  ghost predicate IsRow(v: seq<nat>, s: string, t: string) {
    |v| == |t| + 1 && forall j :: 0 <= j <= |t| ==> v[j] == Distance(s, t[..j])
  }

  method LevenshteinDistance(l: string, r: string) returns (distance: nat)
    ensures IsLeastEdits(l, r, distance)
    ensures distance == Distance(l, r)
  {
    hide IsLeastEdits;
    var v0, v1 := new nat[|r| + 1], new nat[|r| + 1];
    var k := 0;
    while k < |r| + 1
      invariant 0 <= k <= |r| + 1 && forall j :: 0 <= j < k ==> v0[j] == j
    {
      v0[k] := k;
      k := k + 1;
    }
    var i := 0;
    while i < |l|
      invariant 0 <= i <= |l| && v0 != v1 && v0.Length == v1.Length == |r| + 1 && fresh(v0) && fresh(v1)
      invariant IsRow(v0[..], l[..i], r)
    {
      NextRow(l, r, i, v0, v1);
      v0, v1 := v1, v0;
      i := i + 1;
    }
    distance := v0[v0.Length - 1];
    assert v0[..][|r|] == Distance(l[..|l|], r[..|r|]);
    assert l[..|l|] == l && r[..|r|] == r;
    DistanceIsLeast(l, r);
  }

  method NextRow(l: string, r: string, i: nat, v0: array<nat>, v1: array<nat>)
    requires i < |l| && v0 != v1 && v0.Length == v1.Length == |r| + 1 && IsRow(v0[..], l[..i], r)
    modifies v1
    ensures IsRow(v1[..], l[..i + 1], r)
  {
    hide Distance, Butlast;
    var s := l[..i + 1];
    NothingLeft(s, r);
    v1[0] := i + 1;
    var j := 0;
    while j < |r|
      invariant 0 <= j <= |r| && v0[..] == old(v0[..])
      invariant forall k :: 0 <= k <= j ==> v1[k] == Distance(s, r[..k])
    {
      DistanceAt(l, r, i, j);
      assert v0[..][j + 1] == Distance(l[..i], r[..j + 1]) && v0[..][j] == Distance(l[..i], r[..j]);
      var delCost := v0[j + 1] + 1;
      var insertCost := v1[j] + 1;
      var substitutionCost := if l[i] == r[j] then v0[j] else v0[j] + 1;
      v1[j + 1] := Min3(delCost, insertCost, substitutionCost);
      j := j + 1;
    }
  }

  lemma NothingLeft(s: string, r: string)
    ensures Distance(s, r[..0]) == |s|
  {
  }

  lemma DistanceAt(l: string, r: string, i: nat, j: nat)
    requires i < |l| && j < |r|
    ensures Distance(l[..i + 1], r[..j + 1]) == Min3(Distance(l[..i], r[..j + 1]) + 1, Distance(l[..i + 1], r[..j]) + 1,
      Distance(l[..i], r[..j]) + if l[i] == r[j] then 0 else 1)
  {
    assert Butlast(l[..i + 1]) == l[..i] && Butlast(r[..j + 1]) == r[..j];
  }

  // ----- the distance can be reached -----

  lemma DropLast(s: string)
    requires s != []
    ensures IsEdit(s, Butlast(s)) && IsEdit(Butlast(s), s) && s == Butlast(s) + [s[|s| - 1]]
  {
    var p, c := Butlast(s), [s[|s| - 1]];
    assert EditedAt(s, p, p, c, [], []) && EditedAt(p, s, p, [], c, []);
  }

  lemma Substituted(p: string, c: char, d: char)
    requires c != d
    ensures IsEdit(p + [c], p + [d])
  {
    assert EditedAt(p + [c], p + [d], p, [c], [d], []);
  }

  lemma EditAppended(s: string, t: string, c: char)
    requires IsEdit(s, t)
    ensures IsEdit(s + [c], t + [c])
  {
    var p, a, b, q :| EditedAt(s, t, p, a, b, q);
    assert EditedAt(s + [c], t + [c], p, a, b, q + [c]);
  }

  lemma {:induction false} ReachesAppended(s: string, t: string, n: nat, c: char)
    requires Reaches(s, t, n)
    ensures Reaches(s + [c], t + [c], n)
    decreases n
  {
    if n > 0 {
      var u: string :| IsEdit(s, u) && Reaches(u, t, n - 1);
      EditAppended(s, u, c);
      ReachesAppended(u, t, n - 1, c);
    }
  }

  lemma {:induction false} ReachesThrough(s: string, t: string, u: string, m: nat, n: nat)
    requires Reaches(s, t, m) && Reaches(t, u, n)
    ensures Reaches(s, u, m + n)
    decreases m
  {
    if m > 0 {
      var w: string :| IsEdit(s, w) && Reaches(w, t, m - 1);
      ReachesThrough(w, t, u, m - 1, n);
    }
  }

  lemma OneStep(s: string, t: string)
    requires IsEdit(s, t)
    ensures Reaches(s, t, 1)
  {
    assert Reaches(t, t, 0);
  }

  lemma {:induction false} DistanceReached(s: string, t: string)
    ensures Reaches(s, t, Distance(s, t))
    decreases |s| + |t|
  {
    if s == [] && t == [] {
    } else if s == [] {
      DropLast(t);
      DistanceReached(s, Butlast(t));
      OneStep(Butlast(t), t);
      ReachesThrough(s, Butlast(t), t, |t| - 1, 1);
    } else if t == [] {
      DropLast(s);
      DistanceReached(Butlast(s), t);
    } else {
      LastStepReached(s, t);
    }
  }

  lemma {:induction false} LastStepReached(s: string, t: string)
    requires s != [] && t != []
    ensures Reaches(s, t, Distance(s, t))
    decreases |s| + |t|, 0
  {
    hide Reaches, IsEdit;
    var s', t', c, d := Butlast(s), Butlast(t), s[|s| - 1], t[|t| - 1];
    DropLast(s);
    DropLast(t);
    if Distance(s, t) == Distance(s', t) + 1 {
      DistanceReached(s', t);
      OneStep(s, s');
      ReachesThrough(s, s', t, 1, Distance(s', t));
    } else if Distance(s, t) == Distance(s, t') + 1 {
      DistanceReached(s, t');
      OneStep(t', t);
      ReachesThrough(s, t', t, Distance(s, t'), 1);
    } else {
      DistanceReached(s', t');
      ReachesAppended(s', t', Distance(s', t'), c);
      if c != d {
        Substituted(t', c, d);
        OneStep(t' + [c], t);
        ReachesThrough(s, t' + [c], t, Distance(s', t'), 1);
      }
    }
  }

  // ----- fewer edits do not suffice -----

  lemma AddOneCharacter(s: string, t: string)
    requires s != []
    ensures Distance(s, t) <= Distance(Butlast(s), t) + 1
  {
  }

  lemma AddOneToSecond(s: string, t: string)
    requires t != []
    ensures Distance(s, t) <= Distance(s, Butlast(t)) + 1
  {
  }

  lemma {:induction false} DropOneCharacter(s: string, t: string)
    requires s != []
    ensures Distance(Butlast(s), t) <= Distance(s, t) + 1
    decreases |t|
  {
    if t != [] {
      DropOneCharacter(s, Butlast(t));
      AddOneToSecond(Butlast(s), t);
    }
  }

  lemma {:induction false} ChangeOneCharacter(p: string, c: char, d: char, t: string)
    ensures Distance(p + [c], t) <= Distance(p + [d], t) + 1
    decreases |t|
  {
    assert Butlast(p + [c]) == p == Butlast(p + [d]);
    if t != [] {
      ChangeOneCharacter(p, c, d, Butlast(t));
      AddOneCharacter(p + [c], t);
      AddOneToSecond(p + [c], t);
    }
  }

  // An edit changes the distance to any string by at most one.
  lemma {:induction false} EditChangesByOne(s: string, t: string, p: string, a: string, b: string, q: string, u: string)
    requires EditedAt(s, t, p, a, b, q)
    ensures Distance(s, u) <= Distance(t, u) + 1
    decreases |q|, |u|
  {
    if q == [] {
      if a == [] {
        assert s == p && Butlast(t) == p;
        DropOneCharacter(t, u);
      } else if b == [] {
        assert t == p && Butlast(s) == p;
        AddOneCharacter(s, u);
      } else {
        assert s == p + [a[0]] && t == p + [b[0]];
        ChangeOneCharacter(p, a[0], b[0], u);
      }
    } else {
      var q' := Butlast(q);
      assert Butlast(s) == p + a + q' && Butlast(t) == p + b + q';
      assert s[|s| - 1] == q[|q| - 1] == t[|t| - 1];
      if u == [] {
        assert |s| <= |t| + 1;
      } else {
        EditChangesByOne(Butlast(s), Butlast(t), p, a, b, q', u);
        EditChangesByOne(Butlast(s), Butlast(t), p, a, b, q', Butlast(u));
        EditChangesByOne(s, t, p, a, b, q, Butlast(u));
      }
    }
  }

  lemma {:induction false} NoFewerEdits(s: string, t: string, n: nat)
    requires Reaches(s, t, n)
    ensures Distance(s, t) <= n
    decreases n
  {
    if n == 0 {
      NoDistance(s);
    } else {
      var u: string :| IsEdit(s, u) && Reaches(u, t, n - 1);
      NoFewerEdits(u, t, n - 1);
      var p, a, b, q :| EditedAt(s, u, p, a, b, q);
      EditChangesByOne(s, u, p, a, b, q, t);
    }
  }

  lemma {:induction false} NoDistance(s: string)
    ensures Distance(s, s) == 0
    decreases |s|
  {
    if s != [] {
      NoDistance(Butlast(s));
    }
  }

  lemma DistanceIsLeast(s: string, t: string)
    ensures IsLeastEdits(s, t, Distance(s, t))
  {
    DistanceReached(s, t);
    forall m: nat | Reaches(s, t, m) ensures Distance(s, t) <= m {
      NoFewerEdits(s, t, m);
    }
  }

  // ----- a metric -----

  lemma {:induction false} ReachesBack(s: string, t: string, n: nat)
    requires Reaches(s, t, n)
    ensures Reaches(t, s, n)
    decreases n
  {
    if n > 0 {
      var u: string :| IsEdit(s, u) && Reaches(u, t, n - 1);
      var p, a, b, q :| EditedAt(s, u, p, a, b, q);
      assert EditedAt(u, s, p, b, a, q);
      OneStep(u, s);
      ReachesBack(u, t, n - 1);
      ReachesThrough(t, u, s, n - 1, 1);
    }
  }

  lemma DistanceIsMetric(s: string, t: string, u: string)
    ensures Distance(s, t) == 0 <==> s == t
    ensures Distance(s, t) == Distance(t, s)
    ensures Distance(s, u) <= Distance(s, t) + Distance(t, u)
  {
    DistanceReached(s, t);
    DistanceReached(t, s);
    DistanceReached(t, u);
    NoDistance(s);
    ReachesBack(s, t, Distance(s, t));
    ReachesBack(t, s, Distance(t, s));
    NoFewerEdits(t, s, Distance(s, t));
    NoFewerEdits(s, t, Distance(t, s));
    ReachesThrough(s, t, u, Distance(s, t), Distance(t, u));
    NoFewerEdits(s, u, Distance(s, t) + Distance(t, u));
  }
}
