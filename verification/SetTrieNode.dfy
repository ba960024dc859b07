// One node of a set trie by value: its own value and the maps that its subtries hold.
module SetTrieNodes {
  import opened Relations
  import opened Bits
  import opened Options

  // What a node with the given value and subtries holds for the key x; below[k] is the subtrie of column offset + k.
  ghost function Entry<V>(x: Vertical, value: Option<V>, below: seq<map<Vertical, V>>, offset: nat): Option<V> {
    if x == {} then value
    else if offset <= Min(x) < offset + |below| then Lookup(below[Min(x) - offset], x - {Min(x)})
    else None
  }

  // All columns of x are at least low and below high.
  ghost predicate Within(x: Vertical, low: nat, high: nat) {
    forall c :: c in x ==> low <= c < high
  }

  ghost predicate NodeHolds<V>(contents: map<Vertical, V>, value: Option<V>, below: seq<map<Vertical, V>>, offset: nat) {
    && (forall x: Vertical :: Lookup(contents, x) == Entry(x, value, below, offset))
    && (forall k, y :: 0 <= k < |below| && y in below[k] ==> Within(y, offset + k + 1, offset + |below|))
  }

  lemma MinOfExtended(x: Vertical, m: nat)
    requires forall c :: c in x ==> m < c
    ensures Min(x + {m}) == m && (x + {m}) - {m} == x
  {
  }

  lemma NothingHeld<V>(offset: nat, n: nat)
    ensures NodeHolds(map[], None, Nothing<V>(n), offset)
  {
  }

  ghost function Nothing<V>(n: nat): (below: seq<map<Vertical, V>>)
    ensures |below| == n && forall k :: 0 <= k < n ==> below[k] == map[]
  {
    seq(n, _ => map[])
  }

  lemma HeldWithin<V>(contents: map<Vertical, V>, value: Option<V>, below: seq<map<Vertical, V>>, offset: nat)
    requires NodeHolds(contents, value, below, offset)
    ensures forall x :: x in contents ==> Within(x, offset, offset + |below|)
  {
    forall x | x in contents ensures Within(x, offset, offset + |below|) {
      assert Lookup(contents, x) == Entry(x, value, below, offset);
      if x != {} {
        assert x - {Min(x)} in below[Min(x) - offset];
        assert forall c :: c in x ==> c == Min(x) || c in x - {Min(x)};
      }
    }
  }

  // A key that starts with a column is held by the subtrie of that column.
  lemma HeldBelow<V>(contents: map<Vertical, V>, value: Option<V>, below: seq<map<Vertical, V>>, offset: nat, k: nat, y: Vertical)
    requires NodeHolds(contents, value, below, offset) && k < |below| && forall c :: c in y ==> offset + k < c
    ensures Lookup(contents, y + {offset + k}) == Lookup(below[k], y)
  {
    MinOfExtended(y, offset + k);
    var z := y + {offset + k};
    assert Lookup(contents, z) == Entry(z, value, below, offset);
    assert z != {} && z - {Min(z)} == y;
  }

  lemma HeldHere<V>(contents: map<Vertical, V>, value: Option<V>, below: seq<map<Vertical, V>>, offset: nat)
    requires NodeHolds(contents, value, below, offset)
    ensures Lookup(contents, {}) == value
  {
  }

  lemma PutHere<V>(contents: map<Vertical, V>, value: Option<V>, below: seq<map<Vertical, V>>, offset: nat, v: V)
    requires NodeHolds(contents, value, below, offset)
    ensures NodeHolds(contents[{} := v], Some(v), below, offset)
  {
    forall x: Vertical ensures Lookup(contents[{} := v], x) == Entry(x, Some(v), below, offset) {
      assert Lookup(contents, x) == Entry(x, value, below, offset);
    }
  }

  lemma PutBelow<V>(contents: map<Vertical, V>, value: Option<V>, below: seq<map<Vertical, V>>, offset: nat,
                    k: nat, y: Vertical, v: V)
    requires NodeHolds(contents, value, below, offset)
    requires k < |below| && Within(y, offset + k + 1, offset + |below|)
    ensures NodeHolds(contents[y + {offset + k} := v], value, below[k := below[k][y := v]], offset)
  {
    MinOfExtended(y, offset + k);
    var z := y + {offset + k};
    var contents', below' := contents[z := v], below[k := below[k][y := v]];
    forall x: Vertical ensures Lookup(contents', x) == Entry(x, value, below', offset) {
      assert Lookup(contents, x) == Entry(x, value, below, offset);
      OneStart(x, y, offset + k);
    }
  }

  lemma OneStart(x: Vertical, y: Vertical, m: nat)
    requires forall c :: c in y ==> m < c
    ensures x != {} && Min(x) == m && x - {m} == y <==> x == y + {m}
  {
    MinOfExtended(y, m);
    if x != {} && Min(x) == m && x - {m} == y {
      assert x == x - {m} + {m};
    }
  }

  lemma RemoveHere<V>(contents: map<Vertical, V>, value: Option<V>, below: seq<map<Vertical, V>>, offset: nat)
    requires NodeHolds(contents, value, below, offset)
    ensures NodeHolds(contents - {{}}, None, below, offset)
  {
    forall x: Vertical ensures Lookup(contents - {{}}, x) == Entry(x, None, below, offset) {
      assert Lookup(contents, x) == Entry(x, value, below, offset);
    }
  }

  lemma RemoveBelow<V>(contents: map<Vertical, V>, value: Option<V>, below: seq<map<Vertical, V>>, offset: nat,
                       k: nat, y: Vertical)
    requires NodeHolds(contents, value, below, offset)
    requires k < |below| && Within(y, offset + k + 1, offset + |below|)
    ensures NodeHolds(contents - {y + {offset + k}}, value, below[k := below[k] - {y}], offset)
  {
    var z := y + {offset + k};
    var contents', below' := contents - {z}, below[k := below[k] - {y}];
    forall x: Vertical ensures Lookup(contents', x) == Entry(x, value, below', offset) {
      assert Lookup(contents, x) == Entry(x, value, below, offset);
      OneStart(x, y, offset + k);
    }
  }

  // What is left of the contents when one subtrie holds fewer keys.
  ghost function Shrunk<V>(contents: map<Vertical, V>, value: Option<V>, below: seq<map<Vertical, V>>, offset: nat): map<Vertical, V> {
    map x | x in contents && Entry(x, value, below, offset).Some? :: contents[x]
  }

  ghost predicate Shrinks<V>(less: map<Vertical, V>, more: map<Vertical, V>) {
    less.Keys <= more.Keys && forall y :: y in less ==> less[y] == more[y]
  }

  lemma ShrinkBelow<V>(contents: map<Vertical, V>, value: Option<V>, below: seq<map<Vertical, V>>, offset: nat,
                       k: nat, less: map<Vertical, V>)
    requires NodeHolds(contents, value, below, offset) && k < |below| && Shrinks(less, below[k])
    ensures var contents' := Shrunk(contents, value, below[k := less], offset);
      && NodeHolds(contents', value, below[k := less], offset) && Shrinks(contents', contents)
      && (less != below[k] ==> contents' != contents)
      && (less == below[k] ==> contents' == contents)
  {
    var below', contents' := below[k := less], Shrunk(contents, value, below[k := less], offset);
    forall x: Vertical ensures Lookup(contents', x) == Entry(x, value, below', offset) {
      assert Lookup(contents, x) == Entry(x, value, below, offset);
    }
    if less != below[k] {
      var y :| y in below[k] && y !in less;
      HeldBelow(contents, value, below, offset, k, y);
      MinOfExtended(y, offset + k);
      assert y + {offset + k} in contents && y + {offset + k} !in contents';
    } else {
      assert below' == below;
      assert forall x :: x in contents ==> Lookup(contents, x) == Entry(x, value, below, offset);
    }
  }

  // The shrunk contents lack just the key when the subtrie lacks just the rest of it.
  lemma RemovedBelow<V>(contents: map<Vertical, V>, contents': map<Vertical, V>, value: Option<V>, below: seq<map<Vertical, V>>,
                        offset: nat, k: nat, y: Vertical, less: map<Vertical, V>)
    requires NodeHolds(contents, value, below, offset) && k < |below| && Shrinks(less, below[k])
    requires NodeHolds(contents', value, below[k := less], offset) && forall c :: c in y ==> offset + k < c
    ensures contents' == contents - {y + {offset + k}} <==> less == below[k] - {y}
  {
    var z, below' := y + {offset + k}, below[k := less];
    if less == below[k] - {y} {
      forall x: Vertical ensures Lookup(contents', x) == Lookup(contents - {z}, x) {
        assert Lookup(contents, x) == Entry(x, value, below, offset);
        assert Lookup(contents', x) == Entry(x, value, below', offset);
        OneStart(x, y, offset + k);
      }
      SameMap(contents', contents - {z});
    }
    if contents' == contents - {z} {
      forall x: Vertical ensures Lookup(less, x) == Lookup(below[k] - {y}, x) {
        if x in below[k] {
          HeldBelow(contents, value, below, offset, k, x);
          HeldBelow(contents', value, below', offset, k, x);
          MinOfExtended(x, offset + k);
          MinOfExtended(y, offset + k);
        }
      }
      SameMap(less, below[k] - {y});
    }
  }

  // Only keys inside y are gone.
  ghost predicate LosesInside<V>(after: map<Vertical, V>, before: map<Vertical, V>, y: Vertical) {
    forall x :: x in before && x !in after ==> x <= y
  }

  // A subtrie after a removal: dropped when it looks like a leaf with a value.
  ghost predicate RemovedFrom<V>(after: map<Vertical, V>, before: map<Vertical, V>, y: Vertical, loses: bool) {
    && (after == before - {y} <==> !loses) && (y in before ==> !loses)
    && Shrinks(after, before) && LosesInside(after, before, y) && (loses ==> after != before)
  }

  lemma RemovalOutcome<V>(before: map<Vertical, V>, after: map<Vertical, V>, y: Vertical, childLoses: bool,
                          emptyBefore: bool, emptyAfter: bool)
    requires RemovedFrom(after, before, y, childLoses)
    requires emptyBefore ==> before.Keys == {{}}
    requires emptyAfter ==> after.Keys == {{}}
    requires !childLoses ==> (emptyAfter <==> emptyBefore && y != {})
    ensures RemovedFrom(if emptyAfter then map[] else after, before, y, childLoses || (emptyBefore && y != {}))
  {
    if emptyAfter {
      assert {} in after.Keys && {} in before;
      assert {} in before - {y} || y == {};
    }
  }

  lemma RemovedAbove<V>(contents: map<Vertical, V>, value: Option<V>, below: seq<map<Vertical, V>>,
                        offset: nat, k: nat, y: Vertical, less: map<Vertical, V>, loses: bool)
    requires NodeHolds(contents, value, below, offset) && k < |below| && forall c :: c in y ==> offset + k < c
    requires RemovedFrom(less, below[k], y, loses)
    ensures var contents' := Shrunk(contents, value, below[k := less], offset);
      && NodeHolds(contents', value, below[k := less], offset)
      && RemovedFrom(contents', contents, y + {offset + k}, loses)
  {
    hide NodeHolds, Shrunk;
    ShrinkBelow(contents, value, below, offset, k, less);
    var contents' := Shrunk(contents, value, below[k := less], offset);
    RemovedBelow(contents, contents', value, below, offset, k, y, less);
    HeldBelow(contents, value, below, offset, k, y);
    LostAbove(contents, contents', value, below, offset, k, y, less);
  }

  // What a node loses is what its subtrie loses.
  lemma LostAbove<V>(contents: map<Vertical, V>, contents': map<Vertical, V>, value: Option<V>, below: seq<map<Vertical, V>>,
                     offset: nat, k: nat, y: Vertical, less: map<Vertical, V>)
    requires NodeHolds(contents, value, below, offset) && k < |below|
    requires NodeHolds(contents', value, below[k := less], offset) && LosesInside(less, below[k], y)
    ensures LosesInside(contents', contents, y + {offset + k})
  {
    forall x | x in contents && x !in contents' ensures x <= y + {offset + k} {
      assert Lookup(contents, x) == Entry(x, value, below, offset);
      assert Lookup(contents', x) == Entry(x, value, below[k := less], offset);
    }
  }

  lemma LeafHolds<V>(contents: map<Vertical, V>, value: Option<V>, below: seq<map<Vertical, V>>, offset: nat)
    requires NodeHolds(contents, value, below, offset) && value.Some?
    requires forall k :: 0 <= k < |below| ==> below[k] == map[]
    ensures contents.Keys == {{}}
  {
    forall x: Vertical ensures x in contents <==> x == {} {
      assert Lookup(contents, x) == Entry(x, value, below, offset);
    }
  }

  lemma SameMap<V>(m: map<Vertical, V>, m': map<Vertical, V>)
    requires forall x: Vertical :: Lookup(m, x) == Lookup(m', x)
    ensures m == m'
  {
    forall x ensures x in m <==> x in m' {
      assert Lookup(m, x) == Lookup(m', x);
    }
    forall x | x in m ensures m[x] == m'[x] {
      assert Lookup(m, x) == Lookup(m', x);
    }
  }

  // ----- collecting keys -----

  // Visited entries, each once, of the given keys; the keys get the columns of the path to the node in front.
  ghost predicate Visits<V>(visited: seq<(Vertical, V)>, contents: map<Vertical, V>, prefix: Vertical, keys: set<Vertical>) {
    && NoDuplicates(visited)
    && forall e :: e in visited ==> exists x :: x in keys && IsEntry(e, contents, prefix, x)
  }

  ghost predicate IsEntry<V>(e: (Vertical, V), contents: map<Vertical, V>, prefix: Vertical, x: Vertical) {
    x in contents && e == (prefix + x, contents[x])
  }

  ghost predicate VisitsAll<V>(visited: seq<(Vertical, V)>, contents: map<Vertical, V>, prefix: Vertical, keys: set<Vertical>) {
    forall x :: x in keys && x in contents ==> (prefix + x, contents[x]) in visited
  }

  // The keys of a node that the walk meets before the subtrie of column c.
  ghost function Before(keys: set<Vertical>, c: nat): set<Vertical> {
    set x | x in keys && (x == {} || Min(x) < c)
  }

  // childKeys are the keys that start with c, without it.
  ghost predicate AreKeysBelow<V>(childKeys: set<Vertical>, below: map<Vertical, V>, keys: set<Vertical>, c: nat) {
    forall y :: y in below ==> (y in childKeys <==> y + {c} in keys)
  }

  lemma VisitStart<V>(value: Option<V>, contents: map<Vertical, V>, below: seq<map<Vertical, V>>, offset: nat,
                      prefix: Vertical, keys: set<Vertical>)
    requires NodeHolds(contents, value, below, offset)
    requires keys <= contents.Keys
    ensures var visited := if value.Some? && {} in keys then [(prefix, value.value)] else [];
      Visits(visited, contents, prefix, Before(keys, offset)) && VisitsAll(visited, contents, prefix, Before(keys, offset))
  {
    HeldHere(contents, value, below, offset);
    HeldWithin(contents, value, below, offset);
    assert prefix + {} == prefix;
    var visited := if value.Some? && {} in keys then [(prefix, value.value)] else [];
    forall x | x in Before(keys, offset) ensures x == {} {
    }
    assert {} in keys ==> {} in Before(keys, offset);
    forall e | e in visited ensures exists x :: x in Before(keys, offset) && IsEntry(e, contents, prefix, x) {
      assert IsEntry(e, contents, prefix, {});
    }
  }

  // The entries of one more subtrie.
  lemma VisitChild<V>(visited: seq<(Vertical, V)>, more: seq<(Vertical, V)>, value: Option<V>, contents: map<Vertical, V>,
                      below: seq<map<Vertical, V>>, offset: nat, prefix: Vertical, keys: set<Vertical>,
                      k: nat, childKeys: set<Vertical>)
    requires NodeHolds(contents, value, below, offset) && k < |below| && keys <= contents.Keys
    requires AreKeysBelow(childKeys, below[k], keys, offset + k)
    requires Visits(visited, contents, prefix, Before(keys, offset + k)) && Within(prefix, 0, offset)
    requires Visits(more, below[k], prefix + {offset + k}, childKeys)
    ensures Visits(visited + more, contents, prefix, Before(keys, offset + k + 1))
    ensures VisitsAll(visited, contents, prefix, Before(keys, offset + k))
        && VisitsAll(more, below[k], prefix + {offset + k}, childKeys)
      ==> VisitsAll(visited + more, contents, prefix, Before(keys, offset + k + 1))
  {
    hide NodeHolds, VisitsAll;
    var c := offset + k;
    HeldWithin(contents, value, below, offset);
    ChildWithin(contents, value, below, offset, k);
    forall e | e in more
      ensures e.0 - prefix !in Before(keys, c) && exists x :: x in Before(keys, c + 1) && IsEntry(e, contents, prefix, x)
    {
      var y :| y in childKeys && IsEntry(e, below[k], prefix + {c}, y);
      HeldBelow(contents, value, below, offset, k, y);
      MinOfExtended(y, c);
      WithoutPrefix(prefix, y + {c}, offset);
      assert prefix + {c} + y == prefix + (y + {c});
      assert y + {c} in Before(keys, c + 1) && IsEntry(e, contents, prefix, y + {c});
    }
    forall e | e in visited
      ensures e.0 - prefix in Before(keys, c) && exists x :: x in Before(keys, c + 1) && IsEntry(e, contents, prefix, x)
    {
      var x :| x in Before(keys, c) && IsEntry(e, contents, prefix, x);
      WithoutPrefix(prefix, x, offset);
      assert x in Before(keys, c + 1);
    }
    JoinLists(visited, more, prefix, Before(keys, c));
    if VisitsAll(visited, contents, prefix, Before(keys, c)) && VisitsAll(more, below[k], prefix + {c}, childKeys) {
      VisitChildAll(visited, more, value, contents, below, offset, prefix, keys, k, childKeys);
    }
  }

  lemma VisitChildAll<V>(visited: seq<(Vertical, V)>, more: seq<(Vertical, V)>, value: Option<V>, contents: map<Vertical, V>,
                         below: seq<map<Vertical, V>>, offset: nat, prefix: Vertical, keys: set<Vertical>,
                         k: nat, childKeys: set<Vertical>)
    requires NodeHolds(contents, value, below, offset) && k < |below| && keys <= contents.Keys
    requires AreKeysBelow(childKeys, below[k], keys, offset + k)
    requires VisitsAll(visited, contents, prefix, Before(keys, offset + k))
    requires VisitsAll(more, below[k], prefix + {offset + k}, childKeys)
    ensures VisitsAll(visited + more, contents, prefix, Before(keys, offset + k + 1))
  {
    hide NodeHolds;
    var c := offset + k;
    forall x | x in Before(keys, c + 1) ensures (prefix + x, contents[x]) in visited + more {
      if x in Before(keys, c) {
        assert (prefix + x, contents[x]) in visited;
      } else {
        StartsWith(contents, value, below, offset, k, x);
        var y := x - {c};
        assert x == y + {c} && prefix + {c} + y == prefix + x;
        assert (prefix + {c} + y, below[k][y]) in more;
      }
    }
  }

  lemma ChildWithin<V>(contents: map<Vertical, V>, value: Option<V>, below: seq<map<Vertical, V>>, offset: nat, k: nat)
    requires NodeHolds(contents, value, below, offset) && k < |below|
    ensures forall y :: y in below[k] ==> Within(y, offset + k + 1, offset + |below|)
  {
  }

  lemma StartsWith<V>(contents: map<Vertical, V>, value: Option<V>, below: seq<map<Vertical, V>>, offset: nat, k: nat, x: Vertical)
    requires NodeHolds(contents, value, below, offset) && k < |below|
    requires x in contents && x != {} && Min(x) == offset + k
    ensures x - {offset + k} in below[k] && below[k][x - {offset + k}] == contents[x]
  {
    assert Lookup(contents, x) == Entry(x, value, below, offset);
  }

  lemma WithoutPrefix(prefix: Vertical, x: Vertical, offset: nat)
    requires Within(prefix, 0, offset) && forall c :: c in x ==> offset <= c
    ensures prefix + x - prefix == x
  {
  }

  lemma JoinLists<V>(p: seq<(Vertical, V)>, q: seq<(Vertical, V)>, prefix: Vertical, first: set<Vertical>)
    requires NoDuplicates(p) && NoDuplicates(q)
    requires (forall e :: e in p ==> e.0 - prefix in first) && forall e :: e in q ==> e.0 - prefix !in first
    ensures NoDuplicates(p + q)
  {
    forall i, j | 0 <= i < |p| && 0 <= j < |q| ensures p[i] != q[j] {
      assert p[i] in p && q[j] in q;
    }
  }

  // No key starts between c and d.
  lemma BeforeSkips(keys: set<Vertical>, c: nat, d: nat)
    requires c <= d && forall x :: x in keys && x != {} ==> Min(x) < c || Min(x) >= d
    ensures Before(keys, c) == Before(keys, d)
  {
  }

  lemma BeforeAll(keys: set<Vertical>, c: nat)
    requires forall x :: x in keys && x != {} ==> Min(x) < c
    ensures Before(keys, c) == keys
  {
  }

  lemma VisitsWiden<V>(visited: seq<(Vertical, V)>, contents: map<Vertical, V>, prefix: Vertical, keys: set<Vertical>, c: nat, d: nat)
    requires Visits(visited, contents, prefix, Before(keys, c)) && c <= d
    ensures Visits(visited, contents, prefix, Before(keys, d))
  {
    forall e | e in visited ensures exists x :: x in Before(keys, d) && IsEntry(e, contents, prefix, x) {
      var x :| x in Before(keys, c) && IsEntry(e, contents, prefix, x);
      assert x in Before(keys, d);
    }
  }

  lemma VisitsInside<V>(visited: seq<(Vertical, V)>, contents: map<Vertical, V>, prefix: Vertical, keys: set<Vertical>, c: nat)
    requires Visits(visited, contents, prefix, Before(keys, c))
    ensures Visits(visited, contents, prefix, keys)
  {
    forall e | e in visited ensures exists x :: x in keys && IsEntry(e, contents, prefix, x) {
      var x :| x in Before(keys, c) && IsEntry(e, contents, prefix, x);
    }
  }

  lemma VisitsNothing<V>(contents: map<Vertical, V>, prefix: Vertical, keys: set<Vertical>)
    requires contents == map[]
    ensures Visits([], contents, prefix, keys) && VisitsAll([], contents, prefix, keys)
  {
  }

  // All visited entries make the walk go on, except for the last one of a walk that was stopped.
  ghost predicate Stopped<V>(visited: seq<(Vertical, V)>, goOn: (Vertical, V) -> bool, complete: bool) {
    && (forall i :: 0 <= i < |visited| - 1 ==> goOn(visited[i].0, visited[i].1))
    && (if complete then |visited| > 0 ==> goOn(visited[|visited| - 1].0, visited[|visited| - 1].1)
        else |visited| > 0 && !goOn(visited[|visited| - 1].0, visited[|visited| - 1].1))
  }

  lemma StoppedMore<V>(visited: seq<(Vertical, V)>, more: seq<(Vertical, V)>, goOn: (Vertical, V) -> bool, complete: bool)
    requires Stopped(visited, goOn, true) && Stopped(more, goOn, complete)
    ensures Stopped(visited + more, goOn, complete)
  {
  }

  // ----- the keys of the walks -----

  ghost function SubsetKeys<V>(contents: map<Vertical, V>, bound: Vertical): (keys: set<Vertical>)
    ensures keys <= contents.Keys && ({} in keys <==> {} in contents)
  {
    set x | x in contents && x <= bound
  }

  // The keys that contain bound and avoid the blacklist.
  ghost function SupersetKeys<V>(contents: map<Vertical, V>, bound: Vertical, blacklist: Vertical): (keys: set<Vertical>)
    ensures keys <= contents.Keys
  {
    set x | x in contents && bound <= x && x !! blacklist
  }

  // No subset of bound starts between c and d when bound has no column there.
  lemma SubsetsSkip<V>(contents: map<Vertical, V>, bound: Vertical, c: nat, d: nat)
    requires c <= d && forall e :: e in bound ==> e < c || e >= d
    ensures Before(SubsetKeys(contents, bound), c) == Before(SubsetKeys(contents, bound), d)
  {
    forall x | x in SubsetKeys(contents, bound) && x != {} ensures Min(x) < c || Min(x) >= d {
      assert Min(x) in bound;
    }
  }

  // Whatever the bound has in front of the column, a subset of it that starts with the column lacks.
  lemma SubsetsFrom<V>(contents: map<Vertical, V>, value: Option<V>, below: seq<map<Vertical, V>>, offset: nat,
                       k: nat, bound: Vertical, rest: Vertical)
    requires NodeHolds(contents, value, below, offset) && k < |below|
    requires offset + k in bound && forall c :: c > offset + k ==> (c in rest <==> c in bound)
    requires forall c :: c in rest ==> c > offset + k
    ensures AreKeysBelow(SubsetKeys(below[k], rest), below[k], SubsetKeys(contents, bound), offset + k)
  {
    forall y | y in below[k] ensures y in SubsetKeys(below[k], rest) <==> y + {offset + k} in SubsetKeys(contents, bound) {
      HeldBelow(contents, value, below, offset, k, y);
      assert Within(y, offset + k + 1, offset + |below|);
    }
  }

  lemma SupersetsBefore<V>(contents: map<Vertical, V>, value: Option<V>, below: seq<map<Vertical, V>>, offset: nat,
                           k: nat, bound: Vertical, blacklist: Vertical)
    requires NodeHolds(contents, value, below, offset) && k < |below| && offset + k !in bound && offset + k !in blacklist
    ensures AreKeysBelow(SupersetKeys(below[k], bound, blacklist), below[k], SupersetKeys(contents, bound, blacklist), offset + k)
  {
    forall y | y in below[k]
      ensures y in SupersetKeys(below[k], bound, blacklist) <==> y + {offset + k} in SupersetKeys(contents, bound, blacklist)
    {
      HeldBelow(contents, value, below, offset, k, y);
      assert y + {offset + k} !! blacklist <==> y !! blacklist;
      assert bound <= y + {offset + k} <==> bound <= y;
    }
  }

  lemma SupersetsAt<V>(contents: map<Vertical, V>, value: Option<V>, below: seq<map<Vertical, V>>, offset: nat,
                       k: nat, rest: Vertical, blacklist: Vertical)
    requires NodeHolds(contents, value, below, offset) && k < |below| && offset + k !in rest && offset + k !in blacklist
    ensures AreKeysBelow(SupersetKeys(below[k], rest, blacklist), below[k],
      SupersetKeys(contents, rest + {offset + k}, blacklist), offset + k)
  {
    forall y | y in below[k]
      ensures y in SupersetKeys(below[k], rest, blacklist)
        <==> y + {offset + k} in SupersetKeys(contents, rest + {offset + k}, blacklist)
    {
      HeldBelow(contents, value, below, offset, k, y);
      assert y + {offset + k} !! blacklist <==> y !! blacklist;
      assert rest + {offset + k} <= y + {offset + k} <==> rest <= y;
    }
  }

  lemma AllBelow<V>(contents: map<Vertical, V>, value: Option<V>, below: seq<map<Vertical, V>>, offset: nat, k: nat)
    requires NodeHolds(contents, value, below, offset) && k < |below|
    ensures AreKeysBelow(below[k].Keys, below[k], contents.Keys, offset + k)
  {
    forall y | y in below[k] ensures y + {offset + k} in contents {
      HeldBelow(contents, value, below, offset, k, y);
    }
  }

  lemma StoppedNothing<V>(goOn: (Vertical, V) -> bool)
    ensures Stopped([], goOn, true)
  {
  }

  lemma StoppedOne<V>(prefix: Vertical, value: Option<V>, goOn: (Vertical, V) -> bool)
    ensures Stopped(if value.Some? then [(prefix, value.value)] else [], goOn,
      value.Some? ==> goOn(prefix, value.value))
  {
  }

  lemma BlacklistedSkips<V>(contents: map<Vertical, V>, bound: Vertical, blacklist: Vertical, i: nat)
    requires i in blacklist
    ensures var keys := SupersetKeys(contents, bound, blacklist); Before(keys, i) == Before(keys, i + 1)
  {
    var keys := SupersetKeys(contents, bound, blacklist);
    forall x | x in keys && x != {} ensures Min(x) < i || Min(x) >= i + 1 {
      assert i !in x;
    }
    BeforeSkips(keys, i, i + 1);
  }
}
