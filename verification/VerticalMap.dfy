// VerticalMap: a map from column sets to values with subset and superset queries, kept in a set trie.
module VerticalMaps {
  import opened Relations
  import opened Bits
  import opened Options
  import opened SetTrieNodes
  import opened SetTries

  // Exactly the entries of the given keys, each once.
  ghost predicate ListsEntries<V>(entries: seq<(Vertical, V)>, contents: map<Vertical, V>, keys: set<Vertical>) {
    && NoDuplicates(entries)
    && (forall e :: e in entries ==> e.0 in keys && e.0 in contents && e.1 == contents[e.0])
    && (forall x :: x in keys && x in contents ==> (x, contents[x]) in entries)
  }

  // The walk from the root lists the entries under their full keys.
  lemma VisitsFromRoot<V>(visited: seq<(Vertical, V)>, contents: map<Vertical, V>, keys: set<Vertical>)
    requires Visits(visited, contents, {}, keys)
    ensures NoDuplicates(visited)
    ensures forall e :: e in visited ==> e.0 in keys && e.0 in contents && e.1 == contents[e.0]
    ensures VisitsAll(visited, contents, {}, keys) ==> ListsEntries(visited, contents, keys)
  {
    assert forall x: Vertical :: {} + x == x;
    forall e | e in visited ensures e.0 in keys && e.0 in contents && e.1 == contents[e.0] {
      var x :| x in keys && IsEntry(e, contents, {}, x);
    }
  }

  lemma FewerEntries<V>(less: map<Vertical, V>, more: map<Vertical, V>)
    requires Shrinks(less, more)
    ensures less == more || |less| < |more|
  {
    if less.Keys == more.Keys {
      assert less == more;
    } else {
      assert more.Keys == less.Keys + (more.Keys - less.Keys);
    }
  }

  datatype Result<T> = Ok(value: T) | RuntimeError

  class VerticalMap<V> {
    const numColumns: nat
    var size: nat
    const setTrie: SetTrie<V>

    ghost predicate Valid()
      reads this, setTrie, setTrie.Repr
    {
      setTrie.Valid() && setTrie.offset == 0 && setTrie.dimension == numColumns && size == |setTrie.Contents|
    }

    ghost function Repr(): set<object>
      reads this, setTrie
    {
      {this} + setTrie.Repr
    }

    ghost function Contents(): map<Vertical, V>
      reads this, setTrie
    {
      setTrie.Contents
    }

    // A map whose footprint is untouched stays what it was.
    twostate lemma Untouched()
      requires old(Valid()) && unchanged(old(Repr()))
      ensures Valid() && Contents() == old(Contents()) && Repr() == old(Repr())
    {
    }

    constructor (numColumns: nat)
      ensures Valid() && fresh(Repr()) && Contents() == map[] && this.numColumns == numColumns
    {
      this.numColumns, size := numColumns, 0;
      setTrie := new SetTrie<V>(0, numColumns);
    }

    predicate IsEmpty()
      requires Valid()
      reads this, setTrie, setTrie.Repr
      ensures IsEmpty() <==> Contents() == map[]
    {
      size == 0
    }

    function Get(key: Vertical): (found: Option<V>)
      requires Valid() && Within(key, 0, numColumns)
      reads this, setTrie, setTrie.Repr
      ensures found == Lookup(Contents(), key)
    {
      WholeKey(key);
      setTrie.Get(key, 0)
    }

    method Put(key: Vertical, value: V) returns (oldValue: Option<V>)
      requires Valid() && Within(key, 0, numColumns)
      modifies Repr()
      ensures Valid() && fresh(Repr() - old(Repr()))
      ensures Contents() == old(Contents())[key := value] && oldValue == Lookup(old(Contents()), key)
    {
      WholeKey(key);
      oldValue := setTrie.Associate(key, 0, value);
      if oldValue == None {
        size := size + 1;
      }
    }

    // Removes a key. When a leaf of the trie is lost on the way, entries inside an absent key go with it and are still counted.
    method Remove(key: Vertical) returns (removed: Option<V>)
      requires Valid() && Within(key, 0, numColumns)
      modifies Repr()
      ensures Repr() == old(Repr()) && setTrie.Valid() && removed == Lookup(old(Contents()), key)
      ensures Contents() == old(Contents()) - {key} <==> !old(setTrie.LosesLeaf(key, 0))
      ensures Valid() <==> Contents() == old(Contents()) - {key}
      ensures key in old(Contents()) ==> Contents() == old(Contents()) - {key}
      ensures forall x :: x in old(Contents()) ==>
        if x in Contents() then Contents()[x] == old(Contents())[x] else x <= key
    {
      WholeKey(key);
      removed := setTrie.Remove(key, 0);
      if removed != None {
        size := size - 1;
      }
      FewerEntries(setTrie.Contents, old(setTrie.Contents));
    }

    lemma KeysWithin()
      requires Valid()
      ensures forall x :: x in Contents() ==> Within(x, 0, numColumns)
    {
      HeldWithin(setTrie.Contents, setTrie.value, setTrie.Below, 0);
    }

    method EntrySet() returns (entries: seq<(Vertical, V)>)
      requires Valid()
      ensures ListsEntries(entries, Contents(), Contents().Keys)
    {
      entries := setTrie.TraverseEntries({});
      VisitsFromRoot(entries, Contents(), Contents().Keys);
    }

    method KeySet() returns (keys: set<Vertical>)
      requires Valid()
      ensures keys == Contents().Keys
    {
      var entries := EntrySet();
      keys := {};
      var i := 0;
      while i < |entries|
        invariant 0 <= i <= |entries| && keys == FirstKeys(entries, i)
      {
        EntryStep(entries, Contents(), Contents().Keys, i);
        keys := keys + {entries[i].0};
        i := i + 1;
      }
      AllKeys(entries, Contents(), Contents().Keys);
    }

    method GetSubsetEntries(vertical: Vertical) returns (entries: seq<(Vertical, V)>)
      requires Valid() && Within(vertical, 0, numColumns)
      ensures ListsEntries(entries, Contents(), SubsetKeys(Contents(), vertical))
    {
      WholeKey(vertical);
      var complete;
      complete, entries := setTrie.CollectSubsetKeys(vertical, 0, {}, (k, v) => true);
      NeverStopped(entries, complete);
      VisitsFromRoot(entries, Contents(), SubsetKeys(Contents(), vertical));
    }

    // The keys that are subsets, each once.
    method GetSubsetKeys(vertical: Vertical) returns (keys: seq<Vertical>)
      requires Valid() && Within(vertical, 0, numColumns)
      ensures NoDuplicates(keys) && forall x :: x in keys <==> x in Contents() && x <= vertical
    {
      var entries := GetSubsetEntries(vertical);
      keys := seq(|entries|, i requires 0 <= i < |entries| => entries[i].0);
      KeysOf(entries, keys, Contents(), SubsetKeys(Contents(), vertical));
    }

    // The first subset entry that fulfils the condition.
    method GetAnySubsetEntry(vertical: Vertical, condition: (Vertical, V) -> bool) returns (entry: Option<(Vertical, V)>)
      requires Valid() && Within(vertical, 0, numColumns)
      ensures entry.Some? ==> var (k, v) := entry.value; k in Contents() && v == Contents()[k] && k <= vertical && condition(k, v)
      ensures entry.None? ==> forall k :: k in Contents() && k <= vertical ==> !condition(k, Contents()[k])
    {
      WholeKey(vertical);
      ghost var keys := SubsetKeys(Contents(), vertical);
      var complete, visited := setTrie.CollectSubsetKeys(vertical, 0, {}, (k, v) => !condition(k, v));
      VisitsFromRoot(visited, Contents(), keys);
      entry := if complete then None else Some(visited[|visited| - 1]);
      FirstHit(visited, Contents(), keys, condition, complete);
    }

    method GetSupersetEntries(vertical: Vertical) returns (entries: seq<(Vertical, V)>)
      requires Valid() && Within(vertical, 0, numColumns)
      ensures ListsEntries(entries, Contents(), SupersetKeys(Contents(), vertical, {}))
    {
      WholeKey(vertical);
      var complete;
      complete, entries := setTrie.CollectSupersetKeys(vertical, 0, {}, (k, v) => true);
      NeverStopped(entries, complete);
      VisitsFromRoot(entries, Contents(), SupersetKeys(Contents(), vertical, {}));
    }

    method GetAnySupersetEntry(vertical: Vertical, condition: (Vertical, V) -> bool) returns (entry: Option<(Vertical, V)>)
      requires Valid() && Within(vertical, 0, numColumns)
      ensures entry.Some? ==> var (k, v) := entry.value; k in Contents() && v == Contents()[k] && vertical <= k && condition(k, v)
      ensures entry.None? ==> forall k :: k in Contents() && vertical <= k ==> !condition(k, Contents()[k])
    {
      WholeKey(vertical);
      ghost var keys := SupersetKeys(Contents(), vertical, {});
      var complete, visited := setTrie.CollectSupersetKeys(vertical, 0, {}, (k, v) => !condition(k, v));
      VisitsFromRoot(visited, Contents(), keys);
      entry := if complete then None else Some(visited[|visited| - 1]);
      FirstHit(visited, Contents(), keys, condition, complete);
    }

    method GetRestrictedSupersetEntries(vertical: Vertical, exclusion: Vertical)
      returns (entries: Result<seq<(Vertical, V)>>)
      requires Valid() && Within(vertical, 0, numColumns)
      ensures entries.Ok? <==> vertical !! exclusion
      ensures entries.Ok? ==> ListsEntries(entries.value, Contents(), SupersetKeys(Contents(), vertical, exclusion))
    {
      if vertical * exclusion != {} {
        return RuntimeError;
      }
      forall c | c in vertical ensures c !in exclusion {
        assert c !in vertical * exclusion;
      }
      WholeKey(vertical);
      var visited := setTrie.CollectRestrictedSupersetKeys(vertical, exclusion, 0, {});
      VisitsFromRoot(visited, Contents(), SupersetKeys(Contents(), vertical, exclusion));
      entries := Ok(visited);
    }

    // Removes the given entries one by one.
    method RemoveEntries(entries: seq<(Vertical, V)>, ghost keys: set<Vertical>)
      requires Valid() && keys <= Contents().Keys && ListsEntries(entries, Contents(), keys)
      modifies Repr()
      ensures Valid() && Repr() == old(Repr()) && Contents() == old(Contents()) - keys
    {
      hide ListsEntries, NodeHolds, Within, Valid, Contents;
      ghost var contents := Contents();
      var i := 0;
      while i < |entries|
        invariant 0 <= i <= |entries| && Valid() && Repr() == old(Repr())
        invariant Contents() == contents - FirstKeys(entries, i)
      {
        EntryStep(entries, contents, keys, i);
        KeysWithin();
        var _ := Remove(entries[i].0);
        i := i + 1;
      }
      AllKeys(entries, contents, keys);
    }

    method RemoveSupersetEntries(key: Vertical) returns (any: bool)
      requires Valid() && Within(key, 0, numColumns)
      modifies Repr()
      ensures Valid() && Repr() == old(Repr())
      ensures Contents() == old(Contents()) - SupersetKeys(old(Contents()), key, {})
      ensures any <==> SupersetKeys(old(Contents()), key, {}) != {}
    {
      var supersetEntries := GetSupersetEntries(key);
      AnyEntries(supersetEntries, Contents(), SupersetKeys(Contents(), key, {}));
      RemoveEntries(supersetEntries, SupersetKeys(Contents(), key, {}));
      any := supersetEntries != [];
    }

    method RemoveSubsetEntries(key: Vertical) returns (any: bool)
      requires Valid() && Within(key, 0, numColumns)
      modifies Repr()
      ensures Valid() && Repr() == old(Repr())
      ensures Contents() == old(Contents()) - SubsetKeys(old(Contents()), key)
      ensures any <==> SubsetKeys(old(Contents()), key) != {}
    {
      var subsetEntries := GetSubsetEntries(key);
      AnyEntries(subsetEntries, Contents(), SubsetKeys(Contents(), key));
      RemoveEntries(subsetEntries, SubsetKeys(Contents(), key));
      any := subsetEntries != [];
    }
  }

  lemma WholeKey(key: Vertical)
    ensures AboveOrAt(key, 0) == key
  {
  }

  lemma NeverStopped<V>(visited: seq<(Vertical, V)>, complete: bool)
    requires Stopped(visited, (k, v) => true, complete)
    ensures complete
  {
  }

  lemma FirstHit<V>(visited: seq<(Vertical, V)>, contents: map<Vertical, V>, keys: set<Vertical>,
                    condition: (Vertical, V) -> bool, complete: bool)
    requires Stopped(visited, (k, v) => !condition(k, v), complete)
    requires complete ==> ListsEntries(visited, contents, keys)
    ensures !complete ==> |visited| > 0 && condition(visited[|visited| - 1].0, visited[|visited| - 1].1)
    ensures complete ==> forall k :: k in keys && k in contents ==> !condition(k, contents[k])
  {
    if complete {
      forall k | k in keys && k in contents ensures !condition(k, contents[k]) {
        assert (k, contents[k]) in visited;
        var i :| 0 <= i < |visited| && visited[i] == (k, contents[k]);
      }
    }
  }

  lemma KeysOf<V>(entries: seq<(Vertical, V)>, keys: seq<Vertical>, contents: map<Vertical, V>, wanted: set<Vertical>)
    requires ListsEntries(entries, contents, wanted) && |keys| == |entries|
    requires forall i :: 0 <= i < |keys| ==> keys[i] == entries[i].0
    ensures NoDuplicates(keys) && forall x :: x in keys <==> x in wanted && x in contents
  {
    forall i, j | 0 <= i < j < |keys| ensures keys[i] != keys[j] {
      assert entries[i] in entries && entries[j] in entries;
    }
    forall x | x in wanted && x in contents ensures x in keys {
      assert (x, contents[x]) in entries;
      var i :| 0 <= i < |entries| && entries[i] == (x, contents[x]);
      assert keys[i] == x;
    }
    forall x | x in keys ensures x in wanted && x in contents {
      var i :| 0 <= i < |keys| && keys[i] == x;
      assert entries[i] in entries;
    }
  }

  ghost function FirstKeys<V>(entries: seq<(Vertical, V)>, i: nat): set<Vertical>
    requires i <= |entries|
  {
    set e | e in entries[..i] :: e.0
  }

  lemma EntryStep<V>(entries: seq<(Vertical, V)>, contents: map<Vertical, V>, keys: set<Vertical>, i: nat)
    requires ListsEntries(entries, contents, keys) && i < |entries|
    ensures FirstKeys(entries, i + 1) == FirstKeys(entries, i) + {entries[i].0}
    ensures entries[i].0 !in FirstKeys(entries, i) && entries[i].0 in contents
  {
    assert entries[..i + 1] == entries[..i] + [entries[i]];
    assert entries[i] in entries;
    forall e | e in entries[..i] ensures e.0 != entries[i].0 {
      var j :| 0 <= j < i && entries[j] == e;
      assert entries[j] in entries;
    }
  }

  lemma AllKeys<V>(entries: seq<(Vertical, V)>, contents: map<Vertical, V>, keys: set<Vertical>)
    requires ListsEntries(entries, contents, keys) && keys <= contents.Keys
    ensures FirstKeys(entries, |entries|) == keys
  {
    assert entries[..|entries|] == entries;
    forall x | x in keys ensures x in FirstKeys(entries, |entries|) {
      assert (x, contents[x]) in entries;
    }
  }

  lemma AnyEntries<V>(entries: seq<(Vertical, V)>, contents: map<Vertical, V>, keys: set<Vertical>)
    requires ListsEntries(entries, contents, keys) && keys <= contents.Keys
    ensures entries != [] <==> keys != {}
  {
    HasMember(entries);
  }
}
