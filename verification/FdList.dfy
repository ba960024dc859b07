// Lists of registered dependencies: FDAlgorithm::RegisterFd appends, and no engine may register twice.
module FdLists {
  import opened Relations

  // The promise of a run with a limit on left-hand sides.
  ghost predicate ListsMinimalFdsUpTo(fds: seq<Fd>, r: Relation, maxLhs: nat) {
    && NoDuplicates(fds)
    && forall x: Vertical, a: nat :: Fd(x, a) in fds <==> MinimalFd(r, x, a) && |x| <= maxLhs
  }

  // Appending a list without duplicates of dependencies not listed yet.
  ghost predicate Appended(fds: seq<Fd>, before: seq<Fd>, added: set<Fd>) {
    && before <= fds
    && NoDuplicates(fds[|before|..])
    && forall d :: d in fds[|before|..] <==> d in added
  }

  lemma AppendOne(fds: seq<Fd>, before: seq<Fd>, added: set<Fd>, d: Fd)
    requires Appended(fds, before, added) && d !in added
    ensures Appended(fds + [d], before, added + {d})
  {
    assert (fds + [d])[|before|..] == fds[|before|..] + [d];
  }

  lemma AppendMore(fds: seq<Fd>, middle: seq<Fd>, before: seq<Fd>, first: set<Fd>, second: set<Fd>)
    requires Appended(middle, before, first) && Appended(fds, middle, second) && first !! second
    ensures Appended(fds, before, first + second)
  {
    var p, q := middle[|before|..], fds[|middle|..];
    assert fds[|before|..] == p + q;
    forall i, j | 0 <= i < |p| && 0 <= j < |q| ensures p[i] != q[j] {
      assert p[i] in p && q[j] in q;
    }
  }

  lemma AppendNothing(fds: seq<Fd>)
    ensures Appended(fds, fds, {})
  {
  }

  lemma NothingAppended(fds: seq<Fd>, before: seq<Fd>)
    requires Appended(fds, before, {})
    ensures fds == before
  {
    var rest := fds[|before|..];
    HasMember(rest);
    assert fds == before + rest;
  }

  lemma OneMoreFd(d: Fd, fds: seq<Fd>)
    ensures Appended(fds + [d], fds, {d})
  {
    AppendNothing(fds);
    AppendOne(fds, fds, {}, d);
    assert {} + {d} == {d};
  }

  lemma MinimalFdInside(r: Relation, x: Vertical, a: nat)
    requires MinimalFd(r, x, a)
    ensures x <= r.Columns() - {a} && a in r.Columns()
  {
  }

  // A limit of the number of columns is none.
  lemma NoLimit(fds: seq<Fd>, r: Relation)
    ensures ListsMinimalFdsUpTo(fds, r, r.numColumns) <==> ListsMinimalFds(fds, r)
  {
    hide MinimalFd;
    forall x: Vertical, a: nat | MinimalFd(r, x, a) ensures |x| <= r.numColumns {
      MinimalFdInside(r, x, a);
      assert r.Columns() == x + (r.Columns() - x);
    }
  }

  // ----- counting the sets of a list that contain a column -----

  function Coverage(list: seq<Vertical>, column: nat): nat {
    if list == [] then 0
    else Coverage(list[..|list| - 1], column) + if column in list[|list| - 1] then 1 else 0
  }

  ghost function Containing(list: seq<Vertical>, column: nat): set<nat> {
    set i | 0 <= i < |list| && column in list[i]
  }

  // The coverage of a column is the number of sets that contain it.
  lemma {:induction false} CoverageCounts(list: seq<Vertical>, column: nat)
    ensures Coverage(list, column) == |Containing(list, column)|
  {
    if list != [] {
      var n := |list| - 1;
      CoverageCounts(list[..n], column);
      assert Containing(list, column) == Containing(list[..n], column) + if column in list[n] then {n} else {};
    }
  }
}
