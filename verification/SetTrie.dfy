// The set trie behind VerticalMap: a heap tree of nodes that refines a map from column sets to values.
module SetTries {
  import opened Relations
  import opened Bits
  import opened Options
  import opened SetTrieNodes

  // The columns of key from position on, read off by one scan.
  lemma FromStep(key: Vertical, position: nat, dimension: nat)
    requires position <= dimension && Within(key, 0, dimension)
    ensures var next := FindFrom(key, position, dimension);
      && (next == dimension ==> AboveOrAt(key, position) == {})
      && (next < dimension ==> AboveOrAt(key, position) == AboveOrAt(key, next + 1) + {next})
      && (next < dimension ==> Within(AboveOrAt(key, next + 1), next + 1, dimension))
  {
    hide FindFrom;
    var next := FindFrom(key, position, dimension);
    if next < dimension {
      forall c ensures c in AboveOrAt(key, position) <==> c in AboveOrAt(key, next + 1) + {next} {
      }
    }
  }

  class SetTrie<V> {
    const offset: nat
    const dimension: nat
    var subtries: seq<SetTrie?<V>>
    var value: Option<V>
    ghost var Contents: map<Vertical, V>  // the keys are relative to this node
    ghost var Below: seq<map<Vertical, V>>  // what the subtries hold
    ghost var Repr: set<SetTrie<V>>

    ghost predicate Valid()
      reads this, Repr
      decreases Repr
    {
      && Linked()
      && (forall k :: 0 <= k < |subtries| && subtries[k] != null ==> subtries[k].Valid())
      && (forall k :: 0 <= k < |subtries| ==> Below[k] == if subtries[k] == null then map[] else subtries[k].Contents)
      && (subtries == [] ==> Below == Nothing(dimension - offset))
      && NodeHolds(Contents, value, Below, offset)
    }

    // The footprints below form a tree.
    ghost predicate Linked()
      reads this, Repr
    {
      && this in Repr && offset <= dimension
      && |Below| == dimension - offset && (subtries == [] || |subtries| == dimension - offset)
      && (forall k :: 0 <= k < |subtries| && subtries[k] != null ==>
            && subtries[k] in Repr && subtries[k].Repr <= Repr && this !in subtries[k].Repr
            && subtries[k].dimension == dimension && subtries[k].offset == offset + k + 1)
      && (forall k, l :: 0 <= k < l < |subtries| && subtries[k] != null && subtries[l] != null ==>
            subtries[k].Repr !! subtries[l].Repr)
    }

    constructor (offset: nat, dimension: nat)
      requires offset <= dimension
      ensures Valid() && fresh(Repr) && Contents == map[]
      ensures this.offset == offset && this.dimension == dimension && subtries == []
    {
      this.offset, this.dimension := offset, dimension;
      subtries, value := [], None;
      Contents, Below, Repr := map[], Nothing(dimension - offset), {this};
      new;
      NothingHeld<V>(offset, dimension - offset);
    }

    // When only the subtree of one child has been changed, the other children keep theirs.
    twostate lemma OthersKeep(changed: nat)
      requires old(Valid()) && changed < |old(subtries)| && old(subtries[changed]) != null
      requires unchanged(old(Repr) - old(subtries[changed].Repr) - {this})
      ensures forall k :: 0 <= k < |old(subtries)| && k != changed && old(subtries[k]) != null ==>
        var child := old(subtries[k]);
        child.Valid() && child.Repr == old(child.Repr) && child.Contents == old(child.Contents)
    {
      hide NodeHolds;
      forall k | 0 <= k < |old(subtries)| && k != changed && old(subtries[k]) != null
        ensures var child := old(subtries[k]);
          child.Valid() && child.Repr == old(child.Repr) && child.Contents == old(child.Contents)
      {
        assert old(subtries[k].Repr) !! old(subtries[changed].Repr);
        assert unchanged(old(subtries[k].Repr));
      }
    }

    // This node is valid again once it holds what the changed child requires.
    twostate lemma ChildChanged(changed: nat)
      requires old(Valid()) && changed < |old(subtries)| && subtries == old(subtries)
      requires subtries[changed] != null && subtries[changed].Valid()
      requires Below == old(Below)[changed := subtries[changed].Contents]
      requires NodeHolds(Contents, value, Below, offset)
      requires fresh(subtries[changed].Repr - old(subtries[changed].Repr))
      requires unchanged(old(Repr) - old(subtries[changed].Repr) - {this})
      requires Repr == old(Repr) + subtries[changed].Repr
      ensures Valid()
    {
      hide NodeHolds;
      OthersKeep(changed);
      forall k | 0 <= k < |subtries| && k != changed && subtries[k] != null
        ensures subtries[k].Repr !! subtries[changed].Repr
      {
        assert old(subtries[k].Repr) !! old(subtries[changed].Repr);
      }
    }

    // The subtrie of a column, which must be one that this node covers.
    function GetSubtrie(index: nat): SetTrie?<V>
      requires subtries == [] || offset <= index < offset + |subtries|
      reads this
    {
      if subtries == [] then null else subtries[index - offset]
    }

    method GetOrCreateSubTrie(index: nat) returns (subtrie: SetTrie<V>)
      requires Valid() && offset <= index < dimension
      modifies this
      ensures Valid() && fresh(Repr - old(Repr)) && |subtries| == dimension - offset
      ensures subtrie == subtries[index - offset] && Contents == old(Contents) && Below == old(Below) && value == old(value)
      ensures old(subtries) == [] ==> subtrie.subtries == []
    {
      hide NodeHolds;
      if subtries == [] {
        subtries := seq(dimension - offset, _ => null);
      }
      if subtries[index - offset] == null {
        var created := new SetTrie<V>(index + 1, dimension);
        subtries := subtries[index - offset := created];
        Repr := Repr + created.Repr;
      }
      subtrie := subtries[index - offset];
    }

    // Sets a key to a value and returns the old value.
    method Associate(key: Vertical, nextBit: nat, newValue: V) returns (oldValue: Option<V>)
      requires Valid() && nextBit == offset && Within(key, 0, dimension)
      modifies Repr
      ensures Valid() && fresh(Repr - old(Repr))
      ensures Contents == old(Contents)[AboveOrAt(key, nextBit) := newValue]
      ensures oldValue == Lookup(old(Contents), AboveOrAt(key, nextBit))
      ensures AboveOrAt(key, nextBit) == {} && old(subtries) == [] ==> IsEmpty()
      ensures old(subtries) == [] ==> HasLeaf(key, nextBit)
      decreases dimension - nextBit
    {
      hide NodeHolds;
      FromStep(key, nextBit, dimension);
      ghost var contents, below := Contents, Below;
      var next := FindFrom(key, nextBit, dimension);
      if next == dimension {
        HeldHere(contents, value, below, offset);
        PutHere(contents, value, below, offset, newValue);
        oldValue := value;
        value := Some(newValue);
        Contents := contents[{} := newValue];
      } else {
        oldValue := AssociateBelow(key, next, newValue);
      }
    }

    // The part of Associate below the subtrie of a column.
    method AssociateBelow(key: Vertical, next: nat, newValue: V) returns (oldValue: Option<V>)
      requires Valid() && offset <= next < dimension && Within(key, 0, dimension)
      modifies Repr
      ensures Valid() && fresh(Repr - old(Repr))
      ensures Contents == old(Contents)[AboveOrAt(key, next + 1) + {next} := newValue]
      ensures oldValue == Lookup(old(Contents), AboveOrAt(key, next + 1) + {next})
      ensures AboveOrAt(key, next + 1) == {} && old(subtries) == [] ==>
        |subtries| == dimension - offset && subtries[next - offset] != null && subtries[next - offset].IsEmpty()
      decreases dimension - next, 0
    {
      hide NodeHolds, AboveOrAt, Within, HasLeaf;
      ghost var contents, below, rest := Contents, Below, AboveOrAt(key, next + 1);
      FromWithin(key, next + 1, dimension);
      HeldBelow(contents, value, below, offset, next - offset, rest);
      PutBelow(contents, value, below, offset, next - offset, rest, newValue);
      var subtrie := GetOrCreateSubTrie(next);
      label Descend:
      oldValue := subtrie.Associate(key, next + 1, newValue);
      Repr := Repr + subtrie.Repr;
      Below := below[next - offset := below[next - offset][rest := newValue]];
      Contents := contents[rest + {next} := newValue];
      ChildChanged@Descend(next - offset);
    }

    function Get(key: Vertical, nextBit: nat): (found: Option<V>)
      requires Valid() && nextBit == offset && Within(key, 0, dimension)
      reads this, Repr
      ensures found == Lookup(Contents, AboveOrAt(key, nextBit))
      decreases dimension - nextBit
    {
      FromStep(key, nextBit, dimension);
      var next := FindFrom(key, nextBit, dimension);
      if next == dimension then
        HeldHere(Contents, value, Below, offset);
        value
      else
        var subtrie := GetSubtrie(next);
        HeldBelow(Contents, value, Below, offset, next - offset, AboveOrAt(key, next + 1));
        if subtrie == null then None else subtrie.Get(key, next + 1)
    }

    // The test that decides about dropping a subtrie: it holds of a node with a value and without subtries.
    predicate IsEmpty()
      reads this
    {
      value.Some? && forall k :: 0 <= k < |subtries| ==> subtries[k] == null
    }

    // The first column of a key with one column leads to a leaf with a value.
    ghost predicate HasLeaf(key: Vertical, nextBit: nat)
      reads this, Repr
    {
      forall next :: AboveOrAt(key, nextBit) == {next} && offset <= next < dimension ==>
        |subtries| == dimension - offset && subtries[next - offset] != null && subtries[next - offset] in Repr
        && subtries[next - offset].IsEmpty()
    }

    // The path of the key ends, with columns left, at a leaf below this node: the leaf is taken for an empty subtrie.
    ghost predicate LosesLeaf(key: Vertical, nextBit: nat)
      requires Valid() && nextBit == offset && Within(key, 0, dimension)
      reads this, Repr
      decreases dimension - nextBit
    {
      FromStep(key, nextBit, dimension);
      var next := FindFrom(key, nextBit, dimension);
      && next < dimension && GetSubtrie(next) != null
      && (GetSubtrie(next).LosesLeaf(key, next + 1)
          || (GetSubtrie(next).IsEmpty() && AboveOrAt(key, next + 1) != {}))
    }

    // An input that shows it: with a leaf at {0}, removing the absent key {0, 1} also takes the entry of {0}.
    lemma LosesPrefix()
      requires Valid() && offset == 0 && dimension == 2 && |subtries| == 2 && subtries[0] != null && subtries[0].IsEmpty()
      ensures {0} in Contents && {0, 1} !in Contents && LosesLeaf({0, 1}, 0)
    {
      subtries[0].EmptyMeansLeaf();
      HeldBelow(Contents, value, Below, 0, 0, {});
      HeldBelow(Contents, value, Below, 0, 0, {1});
      assert {} + {0} == {0} && {1} + {0} == {0, 1};
      FromStep({0, 1}, 0, dimension);
      assert 1 in AboveOrAt({0, 1}, 1);
    }

    // This node is valid again without the subtrie.
    twostate lemma ChildDropped(changed: nat)
      requires old(Valid()) && changed < |old(subtries)| && old(subtries[changed]) != null
      requires subtries == old(subtries)[changed := null] && Below == old(Below)[changed := map[]]
      requires NodeHolds(Contents, value, Below, offset)
      requires unchanged(old(Repr) - old(subtries[changed].Repr) - {this}) && Repr == old(Repr)
      ensures Valid()
    {
      hide NodeHolds;
      OthersKeep(changed);
    }

    // A node that passes the test holds its own value only.
    lemma EmptyMeansLeaf()
      requires Valid()
      ensures IsEmpty() ==> Contents.Keys == {{}}
    {
      if IsEmpty() {
        LeafHolds(Contents, value, Below, offset);
      }
    }

    // Removes a key. The key and only the key is gone exactly when no leaf is lost; every stored key is removed so.
    // Whatever else is lost lies inside the key.
    method Remove(key: Vertical, nextBit: nat) returns (removed: Option<V>)
      requires Valid() && nextBit == offset && Within(key, 0, dimension)
      modifies Repr
      ensures Valid() && Repr == old(Repr)
      ensures removed == Lookup(old(Contents), AboveOrAt(key, nextBit))
      ensures RemovedFrom(Contents, old(Contents), AboveOrAt(key, nextBit), old(LosesLeaf(key, nextBit)))
      ensures !old(LosesLeaf(key, nextBit)) ==> (IsEmpty() <==> old(IsEmpty()) && AboveOrAt(key, nextBit) != {})
      decreases dimension - nextBit
    {
      hide NodeHolds, AboveOrAt, Within;
      FromStep(key, nextBit, dimension);
      ghost var contents, below := Contents, Below;
      var next := FindFrom(key, nextBit, dimension);
      if next == dimension {
        HeldHere(contents, value, below, offset);
        RemoveHere(contents, value, below, offset);
        removed := value;
        value := None;
        Contents := contents - {{}};
        return;
      }
      var subtrie := GetSubtrie(next);
      FromWithin(key, next + 1, dimension);
      HeldBelow(contents, value, below, offset, next - offset, AboveOrAt(key, next + 1));
      if subtrie == null {
        assert AboveOrAt(key, nextBit) !in contents;
        return None;
      }
      removed := RemoveInSubtrie(key, next);
    }

    // The part of Remove below an existing subtrie.
    method RemoveInSubtrie(key: Vertical, next: nat) returns (removed: Option<V>)
      requires Valid() && Within(key, 0, dimension) && offset <= next < dimension && subtries != []
      requires subtries[next - offset] != null
      modifies Repr
      ensures Valid() && Repr == old(Repr) && value == old(value)
      ensures removed == Lookup(old(Contents), AboveOrAt(key, next + 1) + {next})
      ensures var subtrie := old(subtries[next - offset]);
        var loses := old(subtrie.LosesLeaf(key, next + 1)) || (old(subtrie.IsEmpty()) && AboveOrAt(key, next + 1) != {});
        && RemovedFrom(Contents, old(Contents), AboveOrAt(key, next + 1) + {next}, loses)
        && (!loses ==> subtries == old(subtries))
      decreases dimension - next, 0
    {
      hide NodeHolds, RemovedFrom, Shrunk, AboveOrAt;
      ghost var contents, below, k, rest := Contents, Below, next - offset, AboveOrAt(key, next + 1);
      var subtrie := subtries[next - offset];
      FromRest(key, next + 1);
      HeldBelow(contents, value, below, offset, k, rest);
      subtrie.EmptyMeansLeaf();
      ghost var childLoses, emptyBefore := subtrie.LosesLeaf(key, next + 1), subtrie.IsEmpty();
      removed := subtrie.Remove(key, next + 1);
      subtrie.EmptyMeansLeaf();
      RemovalOutcome(below[k], subtrie.Contents, rest, childLoses, emptyBefore, subtrie.IsEmpty());
      ghost var less := if subtrie.IsEmpty() then map[] else subtrie.Contents;
      RemovedAbove(contents, value, below, offset, k, rest, less, childLoses || (emptyBefore && rest != {}));
      Below := below[k := less];
      Contents := Shrunk(contents, value, Below, offset);
      if subtrie.IsEmpty() {
        subtries := subtries[next - offset := null];
        ChildDropped(k);
      } else {
        ChildChanged(k);
      }
    }

    // What the fields say about one subtrie.
    lemma SubtrieHolds(index: nat)
      requires Valid() && offset <= index < dimension
      ensures var subtrie := GetSubtrie(index);
        && (subtrie == null ==> Below[index - offset] == map[])
        && (subtrie != null ==>
              && subtrie in Repr && subtrie.Repr <= Repr && this !in subtrie.Repr && subtrie.Valid()
              && Below[index - offset] == subtrie.Contents && subtrie.offset == index + 1 && subtrie.dimension == dimension)
    {
    }

    // Visits every entry with the columns of the path in front of its key.
    method TraverseEntries(subsetKey: Vertical) returns (visited: seq<(Vertical, V)>)
      requires Valid() && Within(subsetKey, 0, offset)
      ensures Visits(visited, Contents, subsetKey, Contents.Keys) && VisitsAll(visited, Contents, subsetKey, Contents.Keys)
      decreases dimension - offset
    {
      hide NodeHolds, Visits, VisitsAll, Before;
      ghost var keys := Contents.Keys;
      VisitStart(value, Contents, Below, offset, subsetKey, keys);
      StartsHere();
      visited := if value.Some? then [(subsetKey, value.value)] else [];
      var i := offset;
      while i < dimension
        invariant offset <= i <= dimension
        invariant Visits(visited, Contents, subsetKey, Before(keys, i)) && VisitsAll(visited, Contents, subsetKey, Before(keys, i))
      {
        SubtrieHolds(i);
        AllBelow(Contents, value, Below, offset, i - offset);
        var more: seq<(Vertical, V)> := [];
        var subtrie := GetSubtrie(i);
        PrefixGrows(subsetKey, offset, i);
        if subtrie != null {
          more := subtrie.TraverseEntries(subsetKey + {i});
        } else {
          VisitsNothing(Below[i - offset], subsetKey + {i}, Below[i - offset].Keys);
        }
        VisitChild(visited, more, value, Contents, Below, offset, subsetKey, keys, i - offset, Below[i - offset].Keys);
        visited := visited + more;
        i := i + 1;
      }
      KeysInside();
      BeforeAll(keys, dimension);
    }

    // Visits the entries whose keys are subsets of key, until the collector says stop.
    method CollectSubsetKeys(key: Vertical, nextBit: nat, subsetKey: Vertical, goOn: (Vertical, V) -> bool)
      returns (complete: bool, visited: seq<(Vertical, V)>)
      requires Valid() && nextBit == offset && Within(key, 0, dimension) && Within(subsetKey, 0, offset)
      ensures Visits(visited, Contents, subsetKey, SubsetKeys(Contents, AboveOrAt(key, nextBit)))
      ensures complete ==> VisitsAll(visited, Contents, subsetKey, SubsetKeys(Contents, AboveOrAt(key, nextBit)))
      ensures Stopped(visited, goOn, complete)
      decreases dimension - offset, 1
    {
      hide NodeHolds, Visits, VisitsAll, Before, Stopped, SubsetKeys;
      ghost var keys := SubsetKeys(Contents, AboveOrAt(key, nextBit));
      VisitStart(value, Contents, Below, offset, subsetKey, keys);
      StartsHere();
      StoppedOne(subsetKey, value, goOn);
      visited := if value.Some? then [(subsetKey, value.value)] else [];
      if value.Some? && !goOn(subsetKey, value.value) {
        VisitsInside(visited, Contents, subsetKey, keys, offset);
        return false, visited;
      }
      KeysInside();
      var next := FindFrom(key, nextBit, dimension);
      SubsetsSkip(Contents, AboveOrAt(key, nextBit), offset, next);
      while next < dimension
        invariant offset <= next <= dimension && (next < dimension ==> next in key)
        invariant Visits(visited, Contents, subsetKey, Before(keys, next)) && VisitsAll(visited, Contents, subsetKey, Before(keys, next))
        invariant Stopped(visited, goOn, true)
        decreases dimension - next
      {
        ghost var k, rest := next - offset, AboveOrAt(key, next + 1);
        SubsetsFrom(Contents, value, Below, offset, k, AboveOrAt(key, nextBit), rest);
        var more;
        complete, more := SubsetsInSubtrie(key, next, subsetKey, goOn);
        VisitChild(visited, more, value, Contents, Below, offset, subsetKey, keys, k, SubsetKeys(Below[k], rest));
        StoppedMore(visited, more, goOn, complete);
        visited := visited + more;
        if !complete {
          VisitsInside(visited, Contents, subsetKey, keys, next + 1);
          return;
        }
        SubsetsSkip(Contents, AboveOrAt(key, nextBit), next + 1, FindNext(key, next, dimension));
        next := FindNext(key, next, dimension);
      }
      BeforeAll(keys, dimension);
      complete := true;
    }

    // The part of the walk below one column; nothing without a subtrie.
    method SubsetsInSubtrie(key: Vertical, index: nat, subsetKey: Vertical, goOn: (Vertical, V) -> bool)
      returns (complete: bool, more: seq<(Vertical, V)>)
      requires Valid() && offset <= index < dimension && Within(key, 0, dimension) && Within(subsetKey, 0, offset)
      ensures var below := Below[index - offset];
        && Visits(more, below, subsetKey + {index}, SubsetKeys(below, AboveOrAt(key, index + 1)))
        && (complete ==> VisitsAll(more, below, subsetKey + {index}, SubsetKeys(below, AboveOrAt(key, index + 1))))
      ensures Stopped(more, goOn, complete)
      decreases dimension - offset, 0
    {
      hide NodeHolds, Visits, VisitsAll, Stopped, SubsetKeys;
      SubtrieHolds(index);
      PrefixGrows(subsetKey, offset, index);
      var subtrie := GetSubtrie(index);
      if subtrie != null {
        complete, more := subtrie.CollectSubsetKeys(key, index + 1, subsetKey + {index}, goOn);
      } else {
        VisitsNothing(Below[index - offset], subsetKey + {index}, SubsetKeys(Below[index - offset], AboveOrAt(key, index + 1)));
        StoppedNothing(goOn);
        complete, more := true, [];
      }
    }

    // Visits the entries whose keys contain key, until the collector says stop; the scan position dimension
    // stands for having no column of key left.
    method CollectSupersetKeys(key: Vertical, nextBit: nat, supersetKey: Vertical, goOn: (Vertical, V) -> bool)
      returns (complete: bool, visited: seq<(Vertical, V)>)
      requires Valid() && offset <= nextBit <= dimension && Within(key, 0, dimension) && Within(supersetKey, 0, offset)
      ensures Visits(visited, Contents, supersetKey, SupersetKeys(Contents, AboveOrAt(key, nextBit), {}))
      ensures complete ==> VisitsAll(visited, Contents, supersetKey, SupersetKeys(Contents, AboveOrAt(key, nextBit), {}))
      ensures Stopped(visited, goOn, complete)
      decreases dimension - offset, 2
    {
      hide NodeHolds, Visits, VisitsAll, Before, Stopped, Within;
      ghost var bound := AboveOrAt(key, nextBit);
      ghost var keys := SupersetKeys(Contents, bound, {});
      FromStep(key, nextBit, dimension);
      VisitStart(value, Contents, Below, offset, supersetKey, keys);
      StartsHere();
      KeysInside();
      var next := FindFrom(key, nextBit, dimension);
      if next == dimension {
        StoppedOne(supersetKey, value, goOn);
        visited := if value.Some? then [(supersetKey, value.value)] else [];
        if value.Some? && !goOn(supersetKey, value.value) {
          VisitsInside(visited, Contents, supersetKey, keys, offset);
          return false, visited;
        }
        complete, visited := CollectSupersetsUpTo(key, nextBit, next, dimension, supersetKey, goOn, visited);
        BeforeAll(keys, dimension);
        if !complete {
          VisitsInside(visited, Contents, supersetKey, keys, dimension);
        }
      } else {
        StoppedNothing(goOn);
        complete, visited := CollectSupersetsUpTo(key, nextBit, next, next, supersetKey, goOn, []);
        if !complete {
          VisitsInside(visited, Contents, supersetKey, keys, next);
          return;
        }
        ghost var k, rest := next - offset, AboveOrAt(key, next + 1);
        SupersetsAt(Contents, value, Below, offset, k, rest, {});
        var more;
        complete, more := SupersetsInSubtrie(key, next + 1, next, supersetKey, goOn);
        VisitChild(visited, more, value, Contents, Below, offset, supersetKey, keys, k, SupersetKeys(Below[k], rest, {}));
        StoppedMore(visited, more, goOn, complete);
        visited := visited + more;
        BeforeAll(keys, next + 1);
        assert Before(keys, next + 1) == keys;
      }
    }

    // The part of the walk below one column, with the scan of key at nextBit.
    method SupersetsInSubtrie(key: Vertical, nextBit: nat, index: nat, supersetKey: Vertical, goOn: (Vertical, V) -> bool)
      returns (complete: bool, more: seq<(Vertical, V)>)
      requires Valid() && offset <= index < dimension && index < nextBit <= dimension
      requires Within(key, 0, dimension) && Within(supersetKey, 0, offset)
      ensures var below := Below[index - offset];
        && Visits(more, below, supersetKey + {index}, SupersetKeys(below, AboveOrAt(key, nextBit), {}))
        && (complete ==> VisitsAll(more, below, supersetKey + {index}, SupersetKeys(below, AboveOrAt(key, nextBit), {})))
      ensures Stopped(more, goOn, complete)
      decreases dimension - offset, 0
    {
      hide NodeHolds, Visits, VisitsAll, Stopped, SupersetKeys;
      SubtrieHolds(index);
      PrefixGrows(supersetKey, offset, index);
      var subtrie := GetSubtrie(index);
      if subtrie != null {
        complete, more := subtrie.CollectSupersetKeys(key, nextBit, supersetKey + {index}, goOn);
      } else {
        VisitsNothing(Below[index - offset], supersetKey + {index}, SupersetKeys(Below[index - offset], AboveOrAt(key, nextBit), {}));
        StoppedNothing(goOn);
        complete, more := true, [];
      }
    }

    // The loops over the subtries in front of the next column of key, or over all of them.
    method CollectSupersetsUpTo(key: Vertical, ghost nextBit: nat, next: nat, high: nat, supersetKey: Vertical,
                                goOn: (Vertical, V) -> bool, start: seq<(Vertical, V)>)
      returns (complete: bool, visited: seq<(Vertical, V)>)
      requires Valid() && offset <= nextBit <= dimension && Within(key, 0, dimension) && Within(supersetKey, 0, offset)
      requires next == FindFrom(key, nextBit, dimension) && (high == next || (next == dimension && high == dimension))
      requires var keys := SupersetKeys(Contents, AboveOrAt(key, nextBit), {});
        Visits(start, Contents, supersetKey, Before(keys, offset)) && VisitsAll(start, Contents, supersetKey, Before(keys, offset))
      requires Stopped(start, goOn, true)
      ensures var keys := SupersetKeys(Contents, AboveOrAt(key, nextBit), {});
        && Visits(visited, Contents, supersetKey, Before(keys, high))
        && (complete ==> VisitsAll(visited, Contents, supersetKey, Before(keys, high)))
      ensures Stopped(visited, goOn, complete)
      decreases dimension - offset, 1
    {
      hide NodeHolds, Visits, VisitsAll, Stopped;
      ghost var bound := AboveOrAt(key, nextBit);
      ghost var keys := SupersetKeys(Contents, bound, {});
      assert bound == AboveOrAt(key, next);
      visited := start;
      var i := offset;
      while i < high
        invariant offset <= i <= high
        invariant Visits(visited, Contents, supersetKey, Before(keys, i)) && VisitsAll(visited, Contents, supersetKey, Before(keys, i))
        invariant Stopped(visited, goOn, true)
      {
        ghost var k := i - offset;
        SupersetsBefore(Contents, value, Below, offset, k, bound, {});
        var more;
        complete, more := SupersetsInSubtrie(key, next, i, supersetKey, goOn);
        VisitChild(visited, more, value, Contents, Below, offset, supersetKey, keys, k, SupersetKeys(Below[k], bound, {}));
        StoppedMore(visited, more, goOn, complete);
        visited := visited + more;
        if !complete {
          VisitsWiden(visited, Contents, supersetKey, keys, i + 1, high);
          return;
        }
        i := i + 1;
      }
      complete := true;
    }

    // Visits the entries whose keys contain key and have no column of the blacklist.
    method CollectRestrictedSupersetKeys(key: Vertical, blacklist: Vertical, nextBit: nat, supersetKey: Vertical)
      returns (visited: seq<(Vertical, V)>)
      requires Valid() && offset <= nextBit <= dimension && Within(key, 0, dimension) && Within(supersetKey, 0, offset)
      requires key !! blacklist
      ensures var keys := SupersetKeys(Contents, AboveOrAt(key, nextBit), blacklist);
        Visits(visited, Contents, supersetKey, keys) && VisitsAll(visited, Contents, supersetKey, keys)
      decreases dimension - offset, 2
    {
      hide NodeHolds, Visits, VisitsAll, Before;
      ghost var bound := AboveOrAt(key, nextBit);
      ghost var keys := SupersetKeys(Contents, bound, blacklist);
      FromStep(key, nextBit, dimension);
      VisitStart(value, Contents, Below, offset, supersetKey, keys);
      StartsHere();
      KeysInside();
      var next := FindFrom(key, nextBit, dimension);
      if next == dimension {
        visited := if value.Some? then [(supersetKey, value.value)] else [];
        visited := CollectRestrictedUpTo(key, blacklist, nextBit, next, dimension, supersetKey, visited);
        BeforeAll(keys, dimension);
      } else {
        visited := CollectRestrictedUpTo(key, blacklist, nextBit, next, next, supersetKey, []);
        ghost var k, rest := next - offset, AboveOrAt(key, next + 1);
        SupersetsAt(Contents, value, Below, offset, k, rest, blacklist);
        var more := RestrictedInSubtrie(key, blacklist, next + 1, next, supersetKey);
        VisitChild(visited, more, value, Contents, Below, offset, supersetKey, keys, k, SupersetKeys(Below[k], rest, blacklist));
        visited := visited + more;
        BeforeAll(keys, next + 1);
        assert Before(keys, next + 1) == keys;
      }
    }

    method RestrictedInSubtrie(key: Vertical, blacklist: Vertical, nextBit: nat, index: nat, supersetKey: Vertical)
      returns (more: seq<(Vertical, V)>)
      requires Valid() && offset <= index < dimension && index < nextBit <= dimension && key !! blacklist
      requires Within(key, 0, dimension) && Within(supersetKey, 0, offset)
      ensures var below := Below[index - offset]; var keys := SupersetKeys(below, AboveOrAt(key, nextBit), blacklist);
        Visits(more, below, supersetKey + {index}, keys) && VisitsAll(more, below, supersetKey + {index}, keys)
      decreases dimension - offset, 0
    {
      hide NodeHolds, Visits, VisitsAll, SupersetKeys;
      SubtrieHolds(index);
      PrefixGrows(supersetKey, offset, index);
      var subtrie := GetSubtrie(index);
      if subtrie != null {
        more := subtrie.CollectRestrictedSupersetKeys(key, blacklist, nextBit, supersetKey + {index});
      } else {
        VisitsNothing(Below[index - offset], supersetKey + {index}, SupersetKeys(Below[index - offset], AboveOrAt(key, nextBit), blacklist));
        more := [];
      }
    }

    // Its loops over the subtries, which skip the columns of the blacklist.
    method CollectRestrictedUpTo(key: Vertical, blacklist: Vertical, ghost nextBit: nat, next: nat, high: nat,
                                 supersetKey: Vertical, start: seq<(Vertical, V)>)
      returns (visited: seq<(Vertical, V)>)
      requires Valid() && offset <= nextBit <= dimension && Within(key, 0, dimension) && Within(supersetKey, 0, offset)
      requires key !! blacklist
      requires next == FindFrom(key, nextBit, dimension) && (high == next || (next == dimension && high == dimension))
      requires var keys := SupersetKeys(Contents, AboveOrAt(key, nextBit), blacklist);
        Visits(start, Contents, supersetKey, Before(keys, offset)) && VisitsAll(start, Contents, supersetKey, Before(keys, offset))
      ensures var keys := SupersetKeys(Contents, AboveOrAt(key, nextBit), blacklist);
        Visits(visited, Contents, supersetKey, Before(keys, high)) && VisitsAll(visited, Contents, supersetKey, Before(keys, high))
      decreases dimension - offset, 1
    {
      hide NodeHolds, Visits, VisitsAll;
      ghost var bound := AboveOrAt(key, nextBit);
      ghost var keys := SupersetKeys(Contents, bound, blacklist);
      assert bound == AboveOrAt(key, next);
      visited := start;
      var i := offset;
      while i < high
        invariant offset <= i <= high
        invariant Visits(visited, Contents, supersetKey, Before(keys, i)) && VisitsAll(visited, Contents, supersetKey, Before(keys, i))
      {
        ghost var k := i - offset;
        if i in blacklist {
          BlacklistedSkips(Contents, bound, blacklist, i);
        } else {
          SupersetsBefore(Contents, value, Below, offset, k, bound, blacklist);
          var more := RestrictedInSubtrie(key, blacklist, next, i, supersetKey);
          VisitChild(visited, more, value, Contents, Below, offset, supersetKey, keys, k, SupersetKeys(Below[k], bound, blacklist));
          visited := visited + more;
        }
        i := i + 1;
      }
    }

    lemma StartsHere()
      requires Valid()
      ensures value.Some? <==> {} in Contents
    {
      HeldHere(Contents, value, Below, offset);
    }

    lemma KeysInside()
      requires Valid()
      ensures forall x :: x in Contents && x != {} ==> offset <= Min(x) < dimension
    {
      HeldWithin(Contents, value, Below, offset);
    }
  }

  lemma PrefixGrows(prefix: Vertical, offset: nat, i: nat)
    requires Within(prefix, 0, offset) && offset <= i
    ensures Within(prefix + {i}, 0, i + 1)
  {
  }

  lemma FromWithin(key: Vertical, position: nat, dimension: nat)
    requires Within(key, 0, dimension)
    ensures Within(AboveOrAt(key, position), position, dimension)
    ensures forall c :: c in AboveOrAt(key, position) ==> position <= c
  {
  }

  lemma FromRest(key: Vertical, position: nat)
    ensures forall c :: c in AboveOrAt(key, position) ==> position <= c
  {
  }

  // A run that loses an entry: after {0} has been stored in an empty trie, removing the absent key {0, 1} takes it away.
  method RemovalLosesEntry() returns (stored: Option<nat>, removed: Option<nat>, left: Option<nat>)
    ensures stored == Some(7) && removed == None && left == None
  {
    var trie := new SetTrie<nat>(0, 2);
    WholeAbove({0});
    WholeAbove({0, 1});
    var _ := trie.Associate({0}, 0, 7);
    assert trie.Contents == map[{0} := 7];
    stored := trie.Get({0}, 0);
    assert 0 in {0} && 1 in {0, 1} && 1 !in {0};
    trie.LosesPrefix();
    removed := trie.Remove({0, 1}, 0);
    assert {0} !in trie.Contents by {
      LostOnly(trie.Contents, 7);
    }
    left := trie.Get({0}, 0);
  }

  lemma WholeAbove(key: Vertical)
    ensures AboveOrAt(key, 0) == key
  {
  }

  lemma LostOnly(after: map<Vertical, nat>, v: nat)
    requires RemovedFrom(after, map[{0} := v], {0, 1}, true)
    ensures {0} !in after
  {
    assert {0, 1} !in map[{0} := v] by {
      assert 1 in {0, 1} && 1 !in {0};
    }
    assert map[{0} := v] - {{0, 1}} == map[{0} := v];
    assert {0} in after ==> after == map[{0} := v];
  }
}
