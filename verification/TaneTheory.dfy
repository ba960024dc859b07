// The lattice search of TANE by value: what the candidate sets of a finished level mean.
module TaneTheory {
  import opened Relations

  // a is a right-hand-side candidate of x: a is not constant and no b of x is determined without a and b.
  ghost predicate InPlus(r: Relation, x: Vertical, a: nat) {
    && a in r.Columns() && !IsConstant(r, a)
    && forall b :: b in x ==> !Holds(r, x - {a, b}, b)
  }

  // The candidates that the lattice must carry: those that a later level may still need.
  ghost predicate Wanted(r: Relation, x: Vertical, a: nat) {
    InPlus(r, x, a) && !IsKey(r, x - {a})
  }

  ghost predicate WantedBelow(r: Relation, x: Vertical, a: nat) {
    forall b :: b in x ==> Wanted(r, x - {b}, a)
  }

  // No proper subset of x is a key.
  ghost predicate Live(r: Relation, x: Vertical) {
    forall b :: b in x ==> !IsKey(r, x - {b})
  }

  lemma InPlusHereditary(r: Relation, x: Vertical, y: Vertical, a: nat)
    requires InPlus(r, x, a) && y <= x
    ensures InPlus(r, y, a)
  {
    forall b | b in y ensures !Holds(r, y - {a, b}, b) {
      if Holds(r, y - {a, b}, b) {
        HoldsMonotone(r, y - {a, b}, x - {a, b}, b);
      }
    }
  }

  lemma WantedHereditary(r: Relation, x: Vertical, y: Vertical, a: nat)
    requires Wanted(r, x, a) && y <= x
    ensures Wanted(r, y, a)
  {
    InPlusHereditary(r, x, y, a);
    if IsKey(r, y - {a}) {
      KeyMonotone(r, y - {a}, x - {a});
    }
  }

  lemma WantedMeansBelow(r: Relation, x: Vertical, a: nat)
    requires Wanted(r, x, a)
    ensures WantedBelow(r, x, a)
  {
    forall b | b in x ensures Wanted(r, x - {b}, a) {
      WantedHereditary(r, x, x - {b}, a);
    }
  }

  // ----- what one vertex holds -----

  datatype VertexView = Vertex(rhsCandidates: Vertical, isKeyCandidate: bool, isInvalid: bool)

  // A vertex of a finished level: after the tests and the key pruning of its level.
  ghost predicate VertexDone(v: VertexView, x: Vertical, r: Relation) {
    && v.isKeyCandidate == !IsKey(r, x) && v.isInvalid == IsKey(r, x)
    && (forall a :: Wanted(r, x, a) ==> a in v.rhsCandidates)
    && (forall a :: !IsKey(r, x) ==> (a in v.rhsCandidates <==> InPlus(r, x, a)))
    && (IsKey(r, x) ==> v.rhsCandidates <= x)
  }

  // A vertex after the tests of its level but before key pruning.
  ghost predicate VertexTested(v: VertexView, x: Vertical, r: Relation) {
    && v.isKeyCandidate == Live(r, x) && v.isInvalid == !Live(r, x)
    && (forall a :: Wanted(r, x, a) ==> a in v.rhsCandidates)
    && (forall a :: Live(r, x) ==> (a in v.rhsCandidates <==> InPlus(r, x, a)))
    && (!Live(r, x) ==> v.rhsCandidates <= x)
  }

  // A freshly generated vertex: its candidates are those that all vertices below it carry.
  ghost predicate VertexGenerated(v: VertexView, x: Vertical, r: Relation) {
    && v.isKeyCandidate == Live(r, x) && v.isInvalid == !Live(r, x)
    && (forall a :: WantedBelow(r, x, a) ==> a in v.rhsCandidates)
    && (forall a :: Live(r, x) ==> (a in v.rhsCandidates <==> forall b :: b in x ==> InPlus(r, x - {b}, a)))
    && (!Live(r, x) ==> v.rhsCandidates <= x)
  }

  ghost predicate IsLevel<V>(level: map<Vertical, V>, arity: nat, r: Relation) {
    forall x :: x in level ==> |x| == arity && x <= r.Columns()
  }

  ghost predicate LevelDone(level: map<Vertical, VertexView>, arity: nat, r: Relation) {
    && IsLevel(level, arity, r)
    && (forall x :: x in level ==> VertexDone(level[x], x, r))
    && (forall x: Vertical, a :: x <= r.Columns() && |x| == arity && WantedBelow(r, x, a) ==> x in level)
  }

  // next is what GenerateNextLevel builds from level.
  ghost predicate IsNextLevel(next: map<Vertical, VertexView>, level: map<Vertical, VertexView>, arity: nat, r: Relation) {
    && IsLevel(next, arity + 1, r)
    && (forall x :: x in next ==> ParentsExist(level, x) && IsJoin(next[x], level, x))
    && (forall x: Vertical, a :: x <= r.Columns() && |x| == arity + 1 && ParentsExist(level, x) && CommonCandidate(level, x, a)
          ==> x in next)
  }

  ghost predicate ParentsExist(level: map<Vertical, VertexView>, x: Vertical) {
    forall b :: b in x ==> x - {b} in level
  }

  ghost predicate CommonCandidate(level: map<Vertical, VertexView>, x: Vertical, a: nat)
    requires ParentsExist(level, x)
  {
    forall b :: b in x ==> a in level[x - {b}].rhsCandidates
  }

  ghost predicate IsJoin(v: VertexView, level: map<Vertical, VertexView>, x: Vertical)
    requires ParentsExist(level, x)
  {
    && (forall a :: a in v.rhsCandidates <==> CommonCandidate(level, x, a))
    && (v.isKeyCandidate <==> forall b :: b in x ==> level[x - {b}].isKeyCandidate)
    && (v.isInvalid <==> exists b :: b in x && level[x - {b}].isInvalid)
  }

  // Generating from a finished level gives exactly the vertices and candidates that are wanted.
  lemma JoinIsGenerated(v: VertexView, level: map<Vertical, VertexView>, x: Vertical, arity: nat, r: Relation)
    requires LevelDone(level, arity, r) && ParentsExist(level, x) && IsJoin(v, level, x) && x != {}
    ensures VertexGenerated(v, x, r)
  {
    forall b | b in x ensures VertexDone(level[x - {b}], x - {b}, r) {
    }
    forall a | WantedBelow(r, x, a) ensures a in v.rhsCandidates {
      assert CommonCandidate(level, x, a);
    }
    if !Live(r, x) {
      var b :| b in x && IsKey(r, x - {b});
      forall a | a in v.rhsCandidates ensures a in x {
        assert CommonCandidate(level, x, a);
        assert a in level[x - {b}].rhsCandidates;
      }
    }
  }

  lemma NextLevelComplete(next: map<Vertical, VertexView>, level: map<Vertical, VertexView>, arity: nat, r: Relation,
                          x: Vertical, a: nat)
    requires LevelDone(level, arity, r) && IsNextLevel(next, level, arity, r) && arity >= 1
    requires x <= r.Columns() && |x| == arity + 1 && WantedBelow(r, x, a)
    ensures x in next
  {
    forall b | b in x ensures x - {b} in level && a in level[x - {b}].rhsCandidates {
      WantedMeansBelow(r, x - {b}, a);
      assert |x - {b}| == arity;
      assert VertexDone(level[x - {b}], x - {b}, r);
    }
    assert CommonCandidate(level, x, a);
  }

  // ----- the tests of a level -----

  // The dependencies that testing the vertex x finds: x - {a} -> a for candidates a of x.
  ghost function FoundRhs(r: Relation, x: Vertical, candidates: Vertical): Vertical {
    set a | a in candidates && a in x && Holds(r, x - {a}, a)
  }

  ghost function CandidatesAfterTest(r: Relation, x: Vertical, candidates: Vertical): Vertical {
    var found := FoundRhs(r, x, candidates);
    if found == {} then candidates else candidates * x - found
  }

  // A live vertex finds exactly the minimal dependencies inside it ...
  lemma TestFindsMinimal(v: VertexView, x: Vertical, r: Relation, a: nat)
    requires VertexGenerated(v, x, r) && Live(r, x) && x <= r.Columns() && |x| >= 2
    ensures a in FoundRhs(r, x, v.rhsCandidates) <==> a in x && MinimalFd(r, x - {a}, a)
  {
    hide Holds, MinimalFd, IsKey, IsConstant;
    if a in FoundRhs(r, x, v.rhsCandidates) {
      forall b | b in x - {a} ensures !Holds(r, x - {a} - {b}, a) {
        assert InPlus(r, x - {b}, a);
        assert x - {b} - {a, a} == x - {a} - {b};
      }
      MinimalByDropping(r, x - {a}, a);
    }
    if a in x && MinimalFd(r, x - {a}, a) {
      var l := x - {a};
      SizeOfRest(x, a);
      MinimalFdHolds(r, l, a);
      forall b | b in x ensures InPlus(r, x - {b}, a) {
        MinimalFdCandidates(r, l, a, b);
        assert l + {a} == x;
      }
    }
  }

  lemma MinimalFdHolds(r: Relation, x: Vertical, a: nat)
    requires MinimalFd(r, x, a)
    ensures Holds(r, x, a) && a in r.Columns() && x <= r.Columns() - {a}
  {
  }

  lemma SizeOfRest(x: Vertical, a: nat)
    requires a in x
    ensures |x - {a}| == |x| - 1
  {
  }

  // The left-hand side of a minimal dependency has no redundant column.
  lemma MinimalLhsIsFree(r: Relation, l: Vertical, a: nat, b: nat)
    requires MinimalFd(r, l, a) && b in l
    ensures !Holds(r, l - {b}, b) && !Holds(r, l - {b}, a)
  {
    assert l - {b} < l && l - {b} + {b} == l;
    if Holds(r, l - {b}, b) {
      HoldsThrough(r, l - {b}, b, a);
    }
  }

  lemma MinimalFdCandidates(r: Relation, l: Vertical, a: nat, b: nat)
    requires MinimalFd(r, l, a) && l != {} && b in l + {a}
    ensures InPlus(r, l + {a} - {b}, a)
  {
    var x := l + {a} - {b};
    assert !IsConstant(r, a) by {
      assert {} < l;
    }
    forall c | c in x ensures !Holds(r, x - {a, c}, c) {
      if c == a {
        MinimalLhsIsFree(r, l, a, b);
        assert x - {a, c} == l - {b};
      } else {
        MinimalLhsIsFree(r, l, a, c);
        assert x - {a, c} <= l - {c};
        if Holds(r, x - {a, c}, c) {
          HoldsMonotone(r, x - {a, c}, l - {c}, c);
        }
      }
    }
  }

  // ... and keeps exactly the candidates of its definition.
  lemma TestKeepsPlus(v: VertexView, x: Vertical, r: Relation, a: nat)
    requires VertexGenerated(v, x, r) && Live(r, x) && x <= r.Columns() && |x| >= 2
    ensures a in CandidatesAfterTest(r, x, v.rhsCandidates) <==> InPlus(r, x, a)
  {
    var found := FoundRhs(r, x, v.rhsCandidates);
    if InPlus(r, x, a) {
      forall b | b in x ensures InPlus(r, x - {b}, a) {
        InPlusHereditary(r, x, x - {b}, a);
      }
      assert a in v.rhsCandidates;
      if a in x {
        assert x - {a, a} == x - {a};
        assert a !in found;
      } else {
        forall b | b in x ensures !Holds(r, x - {b}, b) {
          assert x - {a, b} == x - {b};
        }
        assert found == {};
      }
    }
    if a in v.rhsCandidates && !InPlus(r, x, a) {
      PlusFails(v, x, r, a);
    }
  }

  // A candidate that stops being one is removed by what the test finds.
  lemma PlusFails(v: VertexView, x: Vertical, r: Relation, a: nat)
    requires VertexGenerated(v, x, r) && Live(r, x) && x <= r.Columns() && |x| >= 2
    requires a in v.rhsCandidates && !InPlus(r, x, a)
    ensures if a in x then a in FoundRhs(r, x, v.rhsCandidates) else FoundRhs(r, x, v.rhsCandidates) != {}
  {
    hide Holds, IsKey, IsConstant;
    var c0 :| c0 in x;
    assert InPlus(r, x - {c0}, a);
    var b :| b in x && Holds(r, x - {a, b}, b);
    if a in x {
      assert InPlus(r, x - {a}, a);
      assert x - {a} - {a, b} == x - {a, b};
      assert x - {a, a} == x - {a};
    } else {
      assert x - {a, b} == x - {b};
      forall c | c in x ensures InPlus(r, x - {c}, b) {
        CandidateCarriesOver(r, x, a, b, c);
      }
      assert b in v.rhsCandidates;
      assert b in FoundRhs(r, x, v.rhsCandidates);
    }
  }

  lemma CandidateCarriesOver(r: Relation, x: Vertical, a: nat, b: nat, c: nat)
    requires a !in x && b in x && c in x && x <= r.Columns() && |x| >= 2
    requires forall d :: d in x ==> InPlus(r, x - {d}, a)
    ensures InPlus(r, x - {c}, b)
  {
    var d :| d in x && d != b by {
      assert |x - {b}| >= 1;
      assert x - {b} != {};
    }
    assert InPlus(r, x - {d}, a);
    assert !Holds(r, x - {d} - {a, b}, b);
    if IsConstant(r, b) {
      HoldsMonotone(r, {}, x - {d} - {a, b}, b);
    }
    assert InPlus(r, x - {c}, a);
    forall e | e in x - {c} ensures !Holds(r, x - {c} - {b, e}, e) {
      assert !Holds(r, x - {c} - {a, e}, e);
      if Holds(r, x - {c} - {b, e}, e) {
        HoldsMonotone(r, x - {c} - {b, e}, x - {c} - {a, e}, e);
      }
    }
  }

  lemma GeneratedIsTested(v: VertexView, x: Vertical, r: Relation)
    requires VertexGenerated(v, x, r) && x <= r.Columns() && |x| >= 2
    ensures !Live(r, x) ==> VertexTested(v, x, r)
    ensures Live(r, x) ==> VertexTested(v.(rhsCandidates := CandidatesAfterTest(r, x, v.rhsCandidates)), x, r)
  {
    if Live(r, x) {
      forall a ensures a in CandidatesAfterTest(r, x, v.rhsCandidates) <==> InPlus(r, x, a) {
        TestKeepsPlus(v, x, r, a);
      }
    } else {
      forall a | Wanted(r, x, a) ensures a in v.rhsCandidates {
        WantedMeansBelow(r, x, a);
      }
    }
  }

  // ----- key pruning -----

  // What sibling checks may rely on, whether or not the sibling has been pruned already.
  ghost predicate VertexSettled(v: VertexView, x: Vertical, r: Relation) {
    && (forall a :: Wanted(r, x, a) ==> a in v.rhsCandidates)
    && (forall a :: !IsKey(r, x) && a in v.rhsCandidates ==> InPlus(r, x, a))
  }

  lemma NonKeyIsLive(r: Relation, x: Vertical)
    requires !IsKey(r, x)
    ensures Live(r, x)
  {
    forall b | b in x ensures !IsKey(r, x - {b}) {
      if IsKey(r, x - {b}) {
        KeyMonotone(r, x - {b}, x);
      }
    }
  }

  lemma TestedOrDoneIsSettled(v: VertexView, x: Vertical, r: Relation)
    requires VertexTested(v, x, r) || VertexDone(v, x, r)
    ensures VertexSettled(v, x, r)
  {
    if !IsKey(r, x) {
      NonKeyIsLive(r, x);
    }
  }

  ghost predicate SiblingsAllow(level: map<Vertical, VertexView>, x: Vertical, rhs: nat) {
    forall c :: c in x ==> x - {c} + {rhs} in level && rhs in level[x - {c} + {rhs}].rhsCandidates
  }

  // A minimal key registers exactly the minimal dependencies that it is the left-hand side of.
  lemma KeyPruningFindsMinimal(level: map<Vertical, VertexView>, x: Vertical, r: Relation, rhs: nat, arity: nat)
    requires forall y :: y in level ==> VertexSettled(level[y], y, r)
    requires forall y: Vertical, a :: y <= r.Columns() && |y| == arity && WantedBelow(r, y, a) ==> y in level
    requires x <= r.Columns() && |x| == arity >= 1 && IsKey(r, x) && Live(r, x) && rhs in r.Columns() - x
    ensures InPlus(r, x, rhs) && SiblingsAllow(level, x, rhs) <==> MinimalFd(r, x, rhs)
  {
    hide VertexSettled, WantedBelow, IsKey, InPlus, Live;
    if InPlus(r, x, rhs) && SiblingsAllow(level, x, rhs) {
      KeyHolds(r, x, rhs);
      forall c | c in x ensures !Holds(r, x - {c}, rhs) {
        SiblingRefutes(level, x, r, rhs, c);
      }
      MinimalByDropping(r, x, rhs);
    }
    if MinimalFd(r, x, rhs) {
      KeyLhsIsCandidate(r, x, rhs);
      forall c | c in x
        ensures x - {c} + {rhs} in level && rhs in level[x - {c} + {rhs}].rhsCandidates
      {
        SiblingExists(level, x, r, rhs, arity, c);
      }
    }
  }

  lemma KeyLhsIsCandidate(r: Relation, x: Vertical, rhs: nat)
    requires MinimalFd(r, x, rhs) && x != {}
    ensures InPlus(r, x, rhs)
  {
    forall c | c in x ensures !Holds(r, x - {rhs, c}, c) {
      MinimalLhsIsFree(r, x, rhs, c);
      assert x - {rhs, c} == x - {c};
    }
    assert {} < x;
  }

  lemma SiblingExists(level: map<Vertical, VertexView>, x: Vertical, r: Relation, rhs: nat, arity: nat, c: nat)
    requires forall y :: y in level ==> VertexSettled(level[y], y, r)
    requires forall y: Vertical, a :: y <= r.Columns() && |y| == arity && WantedBelow(r, y, a) ==> y in level
    requires x <= r.Columns() && |x| == arity && Live(r, x) && MinimalFd(r, x, rhs) && c in x
    ensures x - {c} + {rhs} in level && rhs in level[x - {c} + {rhs}].rhsCandidates
  {
    var s := x - {c} + {rhs};
    MinimalFdHolds(r, x, rhs);
    SiblingIsWanted(r, x, rhs, c);
    WantedMeansBelow(r, s, rhs);
    assert |s| == arity;
    assert VertexSettled(level[s], s, r);
  }

  lemma SiblingRefutes(level: map<Vertical, VertexView>, x: Vertical, r: Relation, rhs: nat, c: nat)
    requires forall y :: y in level ==> VertexSettled(level[y], y, r)
    requires x <= r.Columns() && Live(r, x) && rhs in r.Columns() - x && c in x
    requires SiblingsAllow(level, x, rhs)
    ensures !Holds(r, x - {c}, rhs)
  {
    var s := x - {c} + {rhs};
    assert s - {rhs, rhs} == x - {c};
    if !IsKey(r, s) {
      assert InPlus(r, s, rhs);
    } else if Holds(r, x - {c}, rhs) {
      forall a | a in s ensures Holds(r, x - {c}, a) {
        if a != rhs {
          MemberHolds(r, x - {c}, a);
        }
      }
      DeterminesKey(r, x - {c}, s);
    }
  }

  lemma SiblingIsWanted(r: Relation, x: Vertical, rhs: nat, c: nat)
    requires MinimalFd(r, x, rhs) && Live(r, x) && c in x
    ensures Wanted(r, x - {c} + {rhs}, rhs)
  {
    assert x + {rhs} - {c} == x - {c} + {rhs};
    MinimalFdCandidates(r, x, rhs, c);
    assert x - {c} + {rhs} - {rhs} == x - {c};
  }

  lemma PrunedIsDone(v: VertexView, x: Vertical, r: Relation)
    requires VertexTested(v, x, r)
    ensures !IsKey(r, x) || !Live(r, x) ==> VertexDone(v, x, r)
    ensures IsKey(r, x) && Live(r, x) ==> VertexDone(Vertex(v.rhsCandidates * x, false, true), x, r)
  {
    if !IsKey(r, x) {
      NonKeyIsLive(r, x);
    }
    if !Live(r, x) {
      var b :| b in x && IsKey(r, x - {b});
      KeyMonotone(r, x - {b}, x);
    }
    if IsKey(r, x) {
      forall a | Wanted(r, x, a) ensures a in x {
        assert a !in x ==> x - {a} == x;
      }
    }
  }

  // ----- what has been registered -----

  // The minimal dependencies found once keys of up to keyBound columns and other left-hand sides
  // of fewer than testBound columns have been looked at.
  ghost predicate InScope(r: Relation, x: Vertical, a: nat, keyBound: int, testBound: int) {
    MinimalFd(r, x, a) && (x == {} || if IsKey(r, x) then |x| <= keyBound else |x| < testBound)
  }

  lemma MinimalFdIsWanted(r: Relation, l: Vertical, a: nat)
    requires MinimalFd(r, l, a) && l != {} && !IsKey(r, l)
    ensures WantedBelow(r, l + {a}, a) && Live(r, l + {a}) && |l + {a}| == |l| + 1
  {
    var x := l + {a};
    forall b | b in x ensures Wanted(r, x - {b}, a) && !IsKey(r, x - {b}) {
      MinimalFdCandidates(r, l, a, b);
      assert x - {b} - {a} <= l;
      if IsKey(r, x - {b} - {a}) {
        KeyMonotone(r, x - {b} - {a}, l);
      }
      if IsKey(r, x - {b}) {
        forall c | c in x - {b} ensures Holds(r, l, c) {
          if c != a {
            MemberHolds(r, l, c);
          }
        }
        DeterminesKey(r, l, x - {b});
      }
    }
  }

  lemma MinimalKeyIsWanted(r: Relation, l: Vertical, a: nat) returns (c: nat)
    requires MinimalFd(r, l, a) && l != {} && IsKey(r, l)
    ensures WantedBelow(r, l, c) && Live(r, l)
  {
    c :| c in l;
    forall b | b in l ensures !IsKey(r, l - {b}) {
      MinimalLhsIsFree(r, l, a, b);
      if IsKey(r, l - {b}) {
        KeyHolds(r, l - {b}, a);
      }
    }
    MinimalLhsIsFree(r, l, a, c);
    if IsConstant(r, c) {
      HoldsMonotone(r, {}, l - {c}, c);
    }
    forall b | b in l ensures !Holds(r, l - {c, b}, b) {
      MinimalLhsIsFree(r, l, a, b);
      if Holds(r, l - {c, b}, b) {
        HoldsMonotone(r, l - {c, b}, l - {b}, b);
      }
    }
    assert Wanted(r, l, c);
    WantedMeansBelow(r, l, c);
  }

  lemma {:induction false} SubsetOfSize(x: Vertical, k: nat) returns (y: Vertical)
    requires k <= |x|
    ensures y <= x && |y| == k
    decreases |x|
  {
    if |x| == k {
      y := x;
    } else {
      var b :| b in x;
      SizeOfRest(x, b);
      y := SubsetOfSize(x - {b}, k);
    }
  }

  // When a level is empty no larger column set is wanted either.
  lemma NothingWantedAbove(r: Relation, arity: nat, x: Vertical, a: nat)
    requires arity >= 1 && |x| >= arity && x <= r.Columns()
    requires forall y: Vertical, b :: y <= r.Columns() && |y| == arity ==> !WantedBelow(r, y, b)
    ensures !WantedBelow(r, x, a)
  {
    if |x| > arity && WantedBelow(r, x, a) {
      var b :| b in x;
      SizeOfRest(x, b);
      var y := SubsetOfSize(x - {b}, arity);
      WantedHereditary(r, x - {b}, y, a);
      WantedMeansBelow(r, y, a);
    }
  }
}
