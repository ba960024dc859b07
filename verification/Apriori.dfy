// Apriori: level by level, the tree of frequent itemsets with their supports.
module AprioriMining {
  import opened Relations
  import opened CandidateHashTrees

  ghost predicate IsItemset(items: Itemset, universeSize: nat) {
    IsAscending(items) && forall i :: 0 <= i < |items| ==> items[i] < universeSize
  }

  // The items, the minimum support, and the supports of itemsets as they have been counted.
  datatype RawData = Data(universeSize: nat, minsup: real, support: Itemset -> real) {
    ghost predicate Valid() {
      forall items :: support(items) >= 0.0
    }
  }

  type Data = d: RawData | d.Valid() ghost witness Data(0, 0.0, _ => 0.0)

  // Frequent as far as the counts go, with all subsets that the search looks at.
  ghost predicate Frequent(items: Itemset, data: Data)
    decreases |items|
  {
    && items != [] && IsItemset(items, data.universeSize)
    && data.support(items) >= data.minsup
    && (|items| >= 2 ==> forall i :: 0 <= i < |items| ==> Frequent(Dropped(items, i), data))
  }

  // Transactions, the number of items, and the minimum support.
  datatype RawInput = Input(transactions: Transactions, universeSize: nat, minsup: real) {
    ghost predicate Valid() {
      |transactions| > 0 && forall tid :: tid in transactions ==> IsSorted(transactions[tid])
    }
  }

  type Input = d: RawInput | d.Valid() ghost witness Input(map[0 := []], 0, 0.0)

  ghost predicate TrulyFrequent(items: Itemset, input: Input) {
    && items != [] && IsItemset(items, input.universeSize)
    && Support(input.transactions, items) >= input.minsup
  }

  function Dropped(items: Itemset, i: nat): (rest: Itemset)
    requires i < |items|
    ensures |rest| == |items| - 1
  {
    items[..i] + items[i + 1..]
  }

  function Last(items: Itemset): nat
    requires items != []
  {
    items[|items| - 1]
  }

  // ----- supports -----

  lemma SupportMonotone(transactions: Transactions, items: Itemset, more: Itemset)
    requires |transactions| > 0 && forall i :: 0 <= i < |items| ==> items[i] in more
    ensures Support(transactions, items) >= Support(transactions, more)
  {
    var all, some := Supporting(transactions, transactions.Keys, items), Supporting(transactions, transactions.Keys, more);
    forall tid | tid in some ensures tid in all {
      forall i | 0 <= i < |items| ensures items[i] in transactions[tid] {
        var j :| 0 <= j < |more| && more[j] == items[i];
      }
    }
    assert all == some + (all - some);
    FractionMonotone(|some|, |all|, |transactions|);
  }

  ghost function HavingAll(transactions: Transactions, items: Itemset): set<nat> {
    set tid | tid in transactions.Keys && forall i :: 0 <= i < |items| ==> items[i] in transactions[tid]
  }

  // The support is the share of the transactions that have all items: one exactly when all of them do, zero when none does.
  lemma SupportIsShare(transactions: Transactions, items: Itemset)
    requires |transactions| > 0
    ensures Support(transactions, items) * |transactions| as real == |HavingAll(transactions, items)| as real
    ensures Support(transactions, items) == 1.0 <==>
      forall tid, i :: tid in transactions && 0 <= i < |items| ==> items[i] in transactions[tid]
    ensures Support(transactions, items) == 0.0 <==>
      forall tid :: tid in transactions ==> exists i :: 0 <= i < |items| && items[i] !in transactions[tid]
  {
    var having := HavingAll(transactions, items);
    assert having == Supporting(transactions, transactions.Keys, items);
    ShareOf(|having|, |transactions|);
    SameWhenAsMany(having, transactions.Keys);
    assert |transactions| == |transactions.Keys|;
    forall tid | tid in transactions
      ensures tid in having <==> forall i :: 0 <= i < |items| ==> items[i] in transactions[tid]
    {
    }
    if forall tid, i :: tid in transactions && 0 <= i < |items| ==> items[i] in transactions[tid] {
      assert having == transactions.Keys;
    }
    if forall tid :: tid in transactions ==> exists i :: 0 <= i < |items| && items[i] !in transactions[tid] {
      assert having == {};
    }
  }

  lemma ShareOf(part: nat, whole: nat)
    requires whole > 0
    ensures var share := part as real / whole as real;
      share * whole as real == part as real && (share == 1.0 <==> part == whole) && (share == 0.0 <==> part == 0)
  {
  }

  lemma SameWhenAsMany<T>(s: set<T>, t: set<T>)
    requires s <= t
    ensures |s| == |t| <==> s == t
  {
    assert t == s + (t - s);
  }

  lemma FractionMonotone(a: nat, b: nat, n: nat)
    requires a <= b && n > 0
    ensures a as real / n as real <= b as real / n as real
  {
  }

  lemma {:induction false} PrefixFrequent(items: Itemset, n: nat, data: Data)
    requires Frequent(items, data) && 0 < n <= |items|
    ensures Frequent(items[..n], data)
    decreases |items|
  {
    if n == |items| {
      assert items[..n] == items;
    } else {
      var rest := Dropped(items, |items| - 1);
      assert rest == items[..|items| - 1] && rest[..n] == items[..n];
      PrefixFrequent(rest, n, data);
    }
  }

  lemma DroppedFrequent(items: Itemset, i: nat, data: Data)
    requires Frequent(items, data) && i < |items| && |items| >= 2
    ensures Frequent(Dropped(items, i), data)
  {
  }

  // ----- lists of children -----

  // Children extend their parent by one larger item each, in ascending order.
  ghost predicate IsChildList(list: seq<Node>, parent: Itemset, universeSize: nat) {
    && (forall i :: 0 <= i < |list| ==> IsItemset(list[i].items, universeSize) && IsParent(parent, list[i].items))
    && forall i, j :: 0 <= i < j < |list| ==> Last(list[i].items) < Last(list[j].items)
  }

  ghost predicate HasItems(list: seq<Node>, items: Itemset) {
    exists i :: 0 <= i < |list| && list[i].items == items
  }

  // An itemset all of whose subsets with one item less are frequent; single items have none to look at.
  ghost predicate IsCandidate(items: Itemset, data: Data) {
    && items != [] && IsItemset(items, data.universeSize)
    && (|items| >= 2 ==> forall i :: 0 <= i < |items| ==> Frequent(Dropped(items, i), data))
  }

  lemma FrequentIsCandidate(items: Itemset, data: Data)
    requires Frequent(items, data)
    ensures IsCandidate(items, data)
  {
    if |items| >= 2 {
      forall i | 0 <= i < |items| ensures Frequent(Dropped(items, i), data) {
        DroppedFrequent(items, i, data);
      }
    }
  }

  // Exactly the candidates with a given parent.
  ghost predicate ListsCandidates(list: seq<Node>, parent: Itemset, data: Data) {
    && IsChildList(list, parent, data.universeSize)
    && forall s :: HasItems(list, s) <==> IsParent(parent, s) && IsCandidate(s, data)
  }

  // Exactly the frequent itemsets with a given parent, with their supports.
  ghost predicate ListsFrequent(list: seq<Node>, parent: Itemset, data: Data) {
    && IsChildList(list, parent, data.universeSize)
    && (forall s :: HasItems(list, s) <==> IsParent(parent, s) && Frequent(s, data))
    && forall i :: 0 <= i < |list| ==> list[i].support == data.support(list[i].items)
  }

  function ChildrenOf(tree: Candidates, parent: Itemset): seq<Node> {
    if parent in tree then tree[parent] else []
  }

  // The tree has exactly the frequent itemsets of at most k items.
  ghost predicate TreeUpTo(tree: Candidates, k: nat, data: Data) {
    forall p :: if |p| < k then ListsFrequent(ChildrenOf(tree, p), p, data) else ChildrenOf(tree, p) == []
  }

  // The candidates are exactly the candidates of k items, under frequent parents.
  ghost predicate CandidatesOf(candidates: Candidates, k: nat, data: Data) {
    && (forall p :: p in candidates ==> |p| + 1 == k && candidates[p] != [] && (p == [] || Frequent(p, data)))
    && forall p :: |p| + 1 == k ==> ListsCandidates(ChildrenOf(candidates, p), p, data)
  }

  // ----- judged lists -----

  lemma BelowLast(init: seq<Node>, last: Node, parent: Itemset, universeSize: nat, items: Itemset)
    requires IsChildList(init + [last], parent, universeSize) && HasItems(init, items)
    ensures items != [] && last.items != [] && Last(items) < Last(last.items)
    ensures IsItemset(items, universeSize) && IsParent(parent, items)
  {
    hide IsItemset;
    var list := init + [last];
    var j :| 0 <= j < |init| && init[j].items == items;
    assert list[j] == init[j] && list[|init|] == last;
  }

  ghost predicate AreBelow(list: seq<Node>, items: Itemset) {
    items != [] && forall i :: 0 <= i < |list| ==> list[i].items != [] && Last(list[i].items) < Last(items)
  }

  lemma AllBelowLast(list: seq<Node>, init: seq<Node>, last: Node, parent: Itemset, universeSize: nat)
    requires IsChildList(init + [last], parent, universeSize) && forall s :: HasItems(list, s) ==> HasItems(init, s)
    ensures AreBelow(list, last.items)
  {
    InitIsChildList(init, last, parent, universeSize);
    hide IsItemset, HasItems, IsChildList;
    forall i | 0 <= i < |list| ensures list[i].items != [] && Last(list[i].items) < Last(last.items) {
      IsAmong(list, i);
      BelowLast(init, last, parent, universeSize, list[i].items);
    }
  }

  lemma InitIsChildList(init: seq<Node>, last: Node, parent: Itemset, universeSize: nat)
    requires IsChildList(init + [last], parent, universeSize)
    ensures IsChildList(init, parent, universeSize) && IsItemset(last.items, universeSize) && IsParent(parent, last.items)
  {
    hide IsItemset;
    var list := init + [last];
    assert forall i :: 0 <= i < |init| ==> list[i] == init[i];
    assert list[|init|] == last;
  }

  lemma {:induction false} JudgedList(list: seq<Node>, done: set<Itemset>, data: Data, parent: Itemset)
    requires IsChildList(list, parent, data.universeSize) && forall i :: 0 <= i < |list| ==> list[i].items in done
    ensures var judged := Judged(list, done, data.support, data.minsup);
      && IsChildList(judged, parent, data.universeSize)
      && (forall s :: HasItems(judged, s) <==> HasItems(list, s) && data.support(s) >= data.minsup)
      && (forall i :: 0 <= i < |judged| ==> judged[i].support == data.support(judged[i].items))
  {
    hide IsItemset, HasItems, IsChildList, IsParent;
    if list == [] {
      NoChildren(parent, data.universeSize);
      NothingHeld();
    } else {
      var init, last := list[..|list| - 1], list[|list| - 1];
      assert list == init + [last];
      InitIsChildList(init, last, parent, data.universeSize);
      JudgedList(init, done, data, parent);
      var before, end := Judged(init, done, data.support, data.minsup), Judge(last, done, data.support, data.minsup);
      var kept := last.(support := data.support(last.items));
      AllBelowLast(before, init, last, parent, data.universeSize);
      OneMoreChild(before, kept, parent, data.universeSize);
      HasItemsSplit(init, [last], list);
      HasItemsSplit(before, end, before + end);
      OneItem(last);
      OneItem(kept);
      NothingHeld();
      assert before + [] == before;
    }
  }

  lemma NoChildren(parent: Itemset, universeSize: nat)
    ensures IsChildList([], parent, universeSize)
  {
  }

  lemma OneMoreChild(list: seq<Node>, node: Node, parent: Itemset, universeSize: nat)
    requires IsChildList(list, parent, universeSize) && IsItemset(node.items, universeSize) && IsParent(parent, node.items)
    requires AreBelow(list, node.items)
    ensures IsChildList(list + [node], parent, universeSize)
  {
    hide IsItemset;
  }

  lemma NothingHeld()
    ensures forall s :: !HasItems([], s)
  {
  }

  lemma HasItemsSplit(p: seq<Node>, q: seq<Node>, list: seq<Node>)
    requires list == p + q
    ensures forall s :: HasItems(list, s) <==> HasItems(p, s) || HasItems(q, s)
  {
    forall s ensures HasItems(list, s) <==> HasItems(p, s) || HasItems(q, s) {
      if i :| 0 <= i < |list| && list[i].items == s {
        assert if i < |p| then p[i].items == s else q[i - |p|].items == s;
      }
      if i :| 0 <= i < |p| && p[i].items == s {
        assert list[i].items == s;
      }
      if i :| 0 <= i < |q| && q[i].items == s {
        assert list[|p| + i].items == s;
      }
    }
  }

  lemma OneItem(node: Node)
    ensures forall s :: HasItems([node], s) <==> s == node.items
  {
    assert [node][0] == node;
  }

  // Judging the candidates with a parent leaves the frequent itemsets with that parent.
  lemma JudgedIsFrequent(list: seq<Node>, done: set<Itemset>, data: Data, parent: Itemset)
    requires ListsCandidates(list, parent, data) && forall i :: 0 <= i < |list| ==> list[i].items in done
    ensures ListsFrequent(Judged(list, done, data.support, data.minsup), parent, data)
  {
    JudgedList(list, done, data, parent);
    hide IsItemset, IsCandidate;
    var judged := Judged(list, done, data.support, data.minsup);
    forall s ensures HasItems(judged, s) <==> IsParent(parent, s) && Frequent(s, data) {
      if Frequent(s, data) {
        FrequentIsCandidate(s, data);
      }
      if HasItems(list, s) {
        CandidateIsItemset(s, data);
      }
    }
  }

  lemma CandidateIsItemset(items: Itemset, data: Data)
    requires IsCandidate(items, data)
    ensures items != [] && IsItemset(items, data.universeSize)
  {
  }

  class Apriori {
    const input: Input
    ghost var data: Data  // the counts so far
    var tree: Candidates  // the children of each node, by the itemset of the node; the root is the empty itemset
    var candidates: Candidates
    var levelNum: nat

    ghost predicate Fits()
      reads this
    {
      data.universeSize == input.universeSize && data.minsup == input.minsup
    }

    constructor (input: Input)
      ensures this.input == input && Fits() && tree == map[] && candidates == map[] && levelNum == 1
    {
      this.input := input;
      data := Data(input.universeSize, input.minsup, _ => 0.0);
      tree, candidates, levelNum := map[], map[], 1;
    }

    method CreateFirstLevelCandidates()
      requires candidates == map[] && levelNum == 1 && Fits()
      modifies this`candidates, this`levelNum
      ensures CandidatesOf(candidates, 1, data) && levelNum == 2
    {
      var itemId := 0;
      while itemId < input.universeSize
        invariant itemId <= input.universeSize && levelNum == 1
        invariant candidates.Keys == if itemId == 0 then {} else {[]}
        invariant |ChildrenOf(candidates, [])| == itemId
        invariant forall i :: 0 <= i < itemId ==> ChildrenOf(candidates, [])[i] == Node([i], 0.0)
      {
        candidates := candidates[[] := ChildrenOf(candidates, []) + [Node([itemId], 0.0)]];
        itemId := itemId + 1;
      }
      FirstCandidates(candidates, data);
      levelNum := levelNum + 1;
    }

    // Whether some subset without one of the items before the last is missing in the tree.
    method CanBePruned(itemset: Itemset) returns (prunable: bool)
      requires |itemset| >= 2 && TreeUpTo(tree, |itemset| - 1, data) && IsItemset(itemset, data.universeSize)
      ensures prunable <==> exists i :: 0 <= i < |itemset| - 1 && !Frequent(Dropped(itemset, i), data)
    {
      hide TreeUpTo, Frequent;
      var indexToSkip := 0;
      while indexToSkip < |itemset| - 1
        invariant 0 <= indexToSkip <= |itemset| - 1
        invariant forall i :: 0 <= i < indexToSkip ==> Frequent(Dropped(itemset, i), data)
      {
        var foundSubset := FindSubset(itemset, indexToSkip);
        if !foundSubset {
          return true;
        }
        indexToSkip := indexToSkip + 1;
      }
      return false;
    }

    // Walks down the tree along the itemset without one item.
    method FindSubset(itemset: Itemset, indexToSkip: nat) returns (found: bool)
      requires |itemset| >= 2 && TreeUpTo(tree, |itemset| - 1, data) && IsItemset(itemset, data.universeSize)
      requires indexToSkip < |itemset| - 1
      ensures found <==> Frequent(Dropped(itemset, indexToSkip), data)
    {
      hide TreeUpTo, Frequent, ListsFrequent;
      ghost var target := Dropped(itemset, indexToSkip);
      var nodesToVisit := ChildrenOf(tree, []);
      var itemIndex := 0;
      ghost var depth, passed := 0, 0;
      assert target[..0] == [];
      while nodesToVisit != []
        invariant 0 <= depth < |target| && 0 <= passed <= |ChildrenOf(tree, target[..depth])|
        invariant itemIndex == depth || (itemIndex == depth + 1 && depth >= indexToSkip)
        invariant depth > indexToSkip ==> itemIndex == depth + 1
        invariant nodesToVisit == ChildrenOf(tree, target[..depth])[passed..]
        invariant forall i :: 0 <= i < passed ==> ChildrenOf(tree, target[..depth])[i].items != target[..depth + 1]
        decreases |target| - depth, |nodesToVisit|
      {
        if itemIndex == indexToSkip {
          itemIndex := itemIndex + 1;
        }
        assert target[depth] == itemset[itemIndex];
        var nextItemId := itemset[itemIndex];
        var node := nodesToVisit[0];
        nodesToVisit := nodesToVisit[1..];
        ChildIs(tree, target, depth, passed, |itemset| - 1, data);
        if Last(node.items) == nextItemId {
          itemIndex := itemIndex + 1;
          if itemIndex == |itemset| {
            assert target[..|target|] == target;
            return true;
          }
          depth, passed := depth + 1, 0;
          nodesToVisit := ChildrenOf(tree, node.items);
        } else {
          passed := passed + 1;
        }
      }
      NotInTree(tree, target, depth, |itemset| - 1, data);
      return false;
    }

    // The candidates under each of the children, from the siblings to its right.
    method GenerateCandidates(children: seq<Node>, ghost parent: Itemset)
      requires children != [] && TreeUpTo(tree, |parent| + 1, data) && ListsFrequent(children, parent, data)
      requires forall i :: 0 <= i < |children| ==> children[i].items !in candidates
      modifies this`candidates
      ensures candidates.Keys >= old(candidates.Keys) && forall p :: p in old(candidates) ==> candidates[p] == old(candidates)[p]
      ensures forall p :: p in candidates && p !in old(candidates) ==> HasItems(children, p) && candidates[p] != []
      ensures forall i :: 0 <= i < |children| ==> ListsCandidates(ChildrenOf(candidates, children[i].items), children[i].items, data)
    {
      hide TreeUpTo, ListsFrequent, ListsCandidates, HasItems;
      NothingBehindLast(children, parent, data);
      DistinctChildren(children, parent, data);
      var i := 0;
      while i < |children| - 1
        invariant 0 <= i <= |children| - 1
        invariant candidates.Keys >= old(candidates.Keys) && forall p :: p in old(candidates) ==> candidates[p] == old(candidates)[p]
        invariant forall p :: p in candidates && p !in old(candidates) ==>
          HasItems(children, p) && candidates[p] != [] && exists j :: 0 <= j < i && children[j].items == p
        invariant forall j :: 0 <= j < i ==> ListsCandidates(ChildrenOf(candidates, children[j].items), children[j].items, data)
      {
        IsAmong(children, i);
        GenerateUnder(children, i, parent);
        i := i + 1;
      }
    }

    method GenerateUnder(children: seq<Node>, i: nat, ghost parent: Itemset)
      requires i < |children| && TreeUpTo(tree, |parent| + 1, data) && ListsFrequent(children, parent, data)
      requires children[i].items !in candidates
      modifies this`candidates
      ensures ListsCandidates(ChildrenOf(candidates, children[i].items), children[i].items, data)
      ensures forall p :: p != children[i].items ==> (p in candidates <==> p in old(candidates))
      ensures forall p :: p != children[i].items && p in candidates ==> candidates[p] == old(candidates)[p]
      ensures children[i].items in candidates ==> candidates[children[i].items] != []
    {
      hide TreeUpTo, ListsFrequent, ListsCandidates, Frequent, GeneratedUpTo, IsItemset;
      ghost var q := children[i].items;
      StartUnder(children, i, parent, data);
      var j := i + 1;
      while j < |children|
        invariant i + 1 <= j <= |children|
        invariant forall p :: p != q ==> (p in candidates <==> p in old(candidates))
        invariant forall p :: p != q && p in candidates ==> candidates[p] == old(candidates)[p]
        invariant q in candidates ==> candidates[q] != []
        invariant GeneratedUpTo(ChildrenOf(candidates, q), children, i, j, data)
      {
        var items := children[i].items + [Last(children[j].items)];
        JoinedItems(children, i, j, parent, data);
        var prunable := CanBePruned(items);
        NextSibling(ChildrenOf(candidates, q), children, i, j, parent, data, prunable);
        if !prunable {
          candidates := candidates[children[i].items := ChildrenOf(candidates, children[i].items) + [Node(items, 0.0)]];
        }
        j := j + 1;
      }
      AllSiblings(ChildrenOf(candidates, q), children, i, parent, data);
    }

    // Visits the nodes depth first; the nodes one level above the last give the next candidates.
    method GenerateNextCandidateLevel(ghost k: nat)
      requires levelNum == k + 1 && k >= 1 && TreeUpTo(tree, k, data) && candidates == map[]
      modifies this`candidates, this`levelNum
      ensures CandidatesOf(candidates, k + 1, data) && levelNum == k + 2
    {
      hide TreeUpTo, Walked, CandidatesOf;
      var path := [Node([], 0.0)];
      ghost var visited: set<Itemset> := {};
      WalkStarts(tree, k, data);
      while path != []
        invariant levelNum == k + 1 && Walked(path, visited, tree, candidates, k, data)
        decreases TreeItems(tree) - visited
      {
        var node := path[0];
        ghost var before, whole := candidates, path;
        NodeToVisit(path, visited, tree, candidates, k, data);
        path := path[1..];
        var children := ChildrenOf(tree, node.items);
        if |node.items| == levelNum - 2 && children != [] {
          GenerateCandidates(children, node.items);
          assert OnlyAdded(before, candidates, children);
          WalkGenerates(whole, visited, tree, before, candidates, k, data);
        } else {
          WalkDescends(whole, visited, tree, candidates, k, data);
          path := children + path;
        }
        visited := visited + {node.items};
      }
      WalkEnds(visited, tree, candidates, k, data);
      levelNum := levelNum + 1;
    }

    // Moves the candidates that are left below their parents.
    method AppendToTree(ghost before: Candidates, ghost done: set<Itemset>, ghost k: nat)
      requires k >= 1 && TreeUpTo(tree, k - 1, data) && CandidatesOf(before, k, data)
      requires AreJudged(candidates, before, done, data.support, data.minsup)
      requires forall p, i :: p in before && 0 <= i < |before[p]| ==> before[p][i].items in done
      modifies this`tree
      ensures TreeUpTo(tree, k, data)
    {
      hide TreeUpTo, CandidatesOf, AreJudged;
      ghost var start := tree;
      var rest := candidates.Keys;
      while rest != {}
        invariant rest <= candidates.Keys
        invariant forall p :: ChildrenOf(tree, p) == ChildrenOf(start, p) + (if p in rest then [] else ChildrenOf(candidates, p))
        decreases |rest|
      {
        var p :| p in rest;
        tree := tree[p := ChildrenOf(tree, p) + candidates[p]];
        rest := rest - {p};
      }
      AppendedLevel(start, tree, candidates, before, done, k, data);
    }

    // The tree ends up with exactly the itemsets that are frequent by the counts, each under its parent with its counted
    // support. No count is above the support, so that everything in the tree is frequent; when the transaction ids can be
    // told apart as int, the counts are the supports and the tree has all frequent itemsets.
    method FindFrequent()
      requires tree == map[] && candidates == map[] && levelNum == 1 && Fits()
      modifies this
      ensures Fits() && forall p :: ListsFrequent(ChildrenOf(tree, p), p, data)
      ensures forall items :: Frequent(items, data) ==> TrulyFrequent(items, input)
      ensures ToldApart(input.transactions) ==> forall items :: TrulyFrequent(items, input) ==>
        Frequent(items, data) && data.support(items) == Support(input.transactions, items)
    {
      hide TreeUpTo, CandidatesOf, ListsFrequent, Frequent, TrulyFrequent, ToldApart, SupportsFit;
      data := Data(input.universeSize, input.minsup, _ => 0.0);
      NothingInTree(data);
      NothingCountedYet(data, input);
      CreateFirstLevelCandidates();
      ghost var k := 1;
      while candidates != map[]
        invariant k >= 1 && levelNum == k + 1 && TreeUpTo(tree, k - 1, data) && CandidatesOf(candidates, k, data)
        invariant Fits() && SupportsFit(data, input, k)
        decreases input.universeSize + 1 - k
      {
        CandidatesFit(candidates, k, data);
        CountLevel(k);
        GenerateNextCandidateLevel(k);
        k := k + 1;
      }
      NothingLarger(tree, k, data);
      CountsDecide(data, input, k);
    }

    // Counts the candidates of k items and moves the frequent ones to the tree.
    method CountLevel(ghost k: nat)
      requires k >= 1 && levelNum == k + 1 && TreeUpTo(tree, k - 1, data) && CandidatesOf(candidates, k, data)
      requires candidates != map[] && Fits() && SupportsFit(data, input, k)
      modifies this`data, this`tree, this`candidates
      ensures TreeUpTo(tree, k, data) && candidates == map[] && Fits() && SupportsFit(data, input, k + 1)
    {
      hide TreeUpTo, CandidatesOf, ListsFrequent, CandidateHashTree.Valid, AreJudged, HasCounts, AreSupports, OneRowEach;
      hide Frequent, CountsAtMost, MarkedIn, RowsOf, ToldApart, SupportsFit, Support, CountedSupport, RowItems, CandidateItems;
      CandidatesFit(candidates, k, data);
      ghost var before := candidates;
      var candidatesCount := CandidatesCount();
      var branchingDegree := levelNum;
      var minThreshold := candidatesCount / branchingDegree + 1;
      var candidateHashTree := new CandidateHashTree(input.transactions, candidates, branchingDegree, minThreshold, k);
      CountedItems(candidateHashTree.root, candidates, k, data);
      OneRowAtFirst(candidateHashTree.root, candidates, input.transactions);
      ghost var order := candidateHashTree.PerformCounting();
      ghost var rows := RowsOf(candidateHashTree.root);
      LevelCounted(candidateHashTree.root, before, tree, k, data, input);
      data := WithCounts(data, rows, k, |input.transactions|);
      candidates := candidateHashTree.PruneNodes(input.minsup, candidates, data.support);
      AllItemsCounted(candidateHashTree.root, before);
      AppendToTree(before, ItemsOf(rows), k);
      candidates := map[];
    }

    method CandidatesCount() returns (count: nat)
    {
      count := 0;
      var rest := candidates.Keys;
      while rest != {}
        invariant rest <= candidates.Keys
        decreases |rest|
      {
        var p :| p in rest;
        count := count + |candidates[p]|;
        rest := rest - {p};
      }
    }

    // Descends to the first child that is not below the wanted item. The support of the itemset reached is returned, which
    // is the wanted one if that is frequent and a foreign one otherwise; -1 is returned when no itemset is reached.
    method GetSupport(frequentItemset: Itemset) returns (support: real)
      requires forall p :: ListsFrequent(ChildrenOf(tree, p), p, data)
      ensures forall s :: IsReached(s, frequentItemset, data) ==> support == data.support(s)
      ensures support == -1.0 <==> forall s :: !IsReached(s, frequentItemset, data)
      ensures Frequent(frequentItemset, data) ==> support == data.support(frequentItemset)
    {
      hide Frequent, ListsFrequent, HasItems, IsReached, IsReachedUpTo;
      var path := ChildrenOf(tree, []);
      var itemIndex := 0;
      ghost var parent: Itemset := [];
      ReachedAtFirst(frequentItemset, data);
      FrequentIsReached(frequentItemset, data);
      while itemIndex != |frequentItemset|
        invariant 0 <= itemIndex <= |frequentItemset| && path == ChildrenOf(tree, parent) && |parent| == itemIndex
        invariant itemIndex == |frequentItemset| ==> itemIndex == 0
        invariant IsReachedUpTo(parent, frequentItemset, data)
        decreases |frequentItemset| - itemIndex
      {
        ChildSizes(path, parent, data);
        var nextNode := 0;
        while nextNode < |path| && path[nextNode].items[itemIndex] < frequentItemset[itemIndex]
          invariant 0 <= nextNode <= |path|
          invariant forall i :: 0 <= i < nextNode ==> path[i].items[itemIndex] < frequentItemset[itemIndex]
        {
          nextNode := nextNode + 1;
        }
        FirstNotBelow(path, parent, frequentItemset, itemIndex, nextNode, data);
        if nextNode == |path| {
          break;
        } else if itemIndex == |frequentItemset| - 1 {
          ReachedAtEnd(path[nextNode].items, frequentItemset, data);
          return path[nextNode].support;
        } else {
          parent := path[nextNode].items;
          path := ChildrenOf(tree, path[nextNode].items);
        }
        itemIndex := itemIndex + 1;
      }
      if frequentItemset == [] {
        NothingReached(frequentItemset, data);
      }
      return -1.0;
    }
  }

  // ----- single items -----

  lemma SingleItems(list: seq<Node>, data: Data)
    requires |list| == data.universeSize && forall i :: 0 <= i < |list| ==> list[i] == Node([i], 0.0)
    ensures ListsCandidates(list, [], data)
  {
    forall s ensures HasItems(list, s) <==> IsParent([], s) && IsCandidate(s, data) {
      if IsParent([], s) && IsCandidate(s, data) {
        assert |s[..|s| - 1]| == 0;
        assert list[s[0]].items == s;
      }
      if HasItems(list, s) {
        var i :| 0 <= i < |list| && list[i].items == s;
        assert s == [i] && s[..0] == [];
      }
    }
  }

  lemma FirstCandidates(candidates: Candidates, data: Data)
    requires candidates.Keys == if data.universeSize == 0 then {} else {[]}
    requires |ChildrenOf(candidates, [])| == data.universeSize
    requires forall i :: 0 <= i < data.universeSize ==> ChildrenOf(candidates, [])[i] == Node([i], 0.0)
    ensures CandidatesOf(candidates, 1, data)
  {
    SingleItems(ChildrenOf(candidates, []), data);
    hide ListsCandidates;
    forall p: Itemset | |p| + 1 == 1 ensures ListsCandidates(ChildrenOf(candidates, p), p, data) {
      assert p == [];
    }
  }

  // ----- walking down to a subset -----

  lemma ChildIs(tree: Candidates, target: Itemset, depth: nat, passed: nat, k: nat, data: Data)
    requires TreeUpTo(tree, k, data) && depth < |target| == k && passed < |ChildrenOf(tree, target[..depth])|
    ensures var child := ChildrenOf(tree, target[..depth])[passed];
      && child.items != [] && (Last(child.items) == target[depth] <==> child.items == target[..depth + 1])
      && (child.items == target ==> Frequent(target, data))
  {
    hide Frequent, IsItemset, ListsFrequent;
    var parent := target[..depth];
    var list := ChildrenOf(tree, parent);
    assert ListsFrequent(list, parent, data);
    hide TreeUpTo;
    SiblingsHaveItems(list, parent, data);
    assert target[..depth + 1] == parent + [target[depth]];
  }

  lemma NotInTree(tree: Candidates, target: Itemset, depth: nat, k: nat, data: Data)
    requires TreeUpTo(tree, k, data) && depth < |target| == k
    requires forall i :: 0 <= i < |ChildrenOf(tree, target[..depth])| ==> ChildrenOf(tree, target[..depth])[i].items != target[..depth + 1]
    ensures !Frequent(target, data)
  {
    hide Frequent, IsItemset;
    var parent, prefix := target[..depth], target[..depth + 1];
    assert ListsFrequent(ChildrenOf(tree, parent), parent, data);
    assert !HasItems(ChildrenOf(tree, parent), prefix);
    assert prefix[..depth] == parent;
    assert IsParent(parent, prefix);
    if Frequent(target, data) {
      PrefixFrequent(target, depth + 1, data);
    }
  }

  // ----- joining siblings -----

  // The candidates from the siblings between i and j.
  ghost predicate GeneratedUpTo(list: seq<Node>, children: seq<Node>, i: nat, j: nat, data: Data)
    requires i < |children| && j <= |children| && forall m :: 0 <= m < |children| ==> children[m].items != []
  {
    && IsChildList(list, children[i].items, data.universeSize)
    && (forall s :: HasItems(list, s) <==> exists m :: i < m < j && s == children[i].items + [Last(children[m].items)] && IsCandidate(s, data))
    && forall l :: 0 <= l < |list| ==> exists m :: i < m < j && Last(list[l].items) == Last(children[m].items)
  }

  lemma SiblingsHaveItems(children: seq<Node>, parent: Itemset, data: Data)
    requires ListsFrequent(children, parent, data)
    ensures forall m :: 0 <= m < |children| ==> children[m].items != [] && Frequent(children[m].items, data)
    ensures forall m :: 0 <= m < |children| ==> |children[m].items| == |parent| + 1
    ensures forall m :: 0 <= m < |children| ==> children[m].items == parent + [Last(children[m].items)]
  {
    hide Frequent, IsItemset;
    forall m | 0 <= m < |children|
      ensures children[m].items != [] && Frequent(children[m].items, data) && children[m].items == parent + [Last(children[m].items)]
    {
      assert HasItems(children, children[m].items);
    }
  }

  lemma StartUnder(children: seq<Node>, i: nat, parent: Itemset, data: Data)
    requires i < |children| && ListsFrequent(children, parent, data)
    ensures forall m :: 0 <= m < |children| ==> children[m].items != []
    ensures GeneratedUpTo([], children, i, i + 1, data)
  {
    SiblingsHaveItems(children, parent, data);
  }

  lemma JoinedItems(children: seq<Node>, i: nat, j: nat, parent: Itemset, data: Data)
    requires ListsFrequent(children, parent, data) && i < j < |children|
    ensures children[i].items != [] && children[j].items != []
    ensures var items := children[i].items + [Last(children[j].items)];
      && |items| == |parent| + 2 && IsItemset(items, data.universeSize)
      && Dropped(items, |items| - 1) == children[i].items && Dropped(items, |items| - 2) == children[j].items
      && Frequent(children[i].items, data) && Frequent(children[j].items, data)
    ensures forall m :: i < m < j ==> children[m].items != [] && Last(children[m].items) < Last(children[j].items)
  {
    hide Frequent;
    SiblingsHaveItems(children, parent, data);
    var items := children[i].items + [Last(children[j].items)];
    assert Last(children[i].items) < Last(children[j].items);
    assert Dropped(items, |items| - 2) == parent + [Last(children[j].items)];
  }

  lemma NextSibling(list: seq<Node>, children: seq<Node>, i: nat, j: nat, parent: Itemset, data: Data, prunable: bool)
    requires ListsFrequent(children, parent, data) && i < j < |children|
    requires forall m :: 0 <= m < |children| ==> children[m].items != []
    requires GeneratedUpTo(list, children, i, j, data)
    requires var items := children[i].items + [Last(children[j].items)];
      prunable <==> exists d :: 0 <= d < |items| - 1 && !Frequent(Dropped(items, d), data)
    ensures GeneratedUpTo(if prunable then list else list + [Node(children[i].items + [Last(children[j].items)], 0.0)], children, i, j + 1, data)
  {
    var items := children[i].items + [Last(children[j].items)];
    JoinedItems(children, i, j, parent, data);
    JoinedCandidate(items, data);
    hide Frequent, IsItemset, IsCandidate, ListsFrequent;
    assert items[..|items| - 1] == children[i].items && Last(items) == Last(children[j].items);
    if prunable {
      NotGenerated(list, children, i, j, data);
    } else {
      GeneratedOne(list, children, i, j, data);
    }
  }

  // The two itemsets joined are frequent, so only the other subsets have to be looked at.
  lemma JoinedCandidate(items: Itemset, data: Data)
    requires |items| >= 2 && IsItemset(items, data.universeSize)
    requires Frequent(Dropped(items, |items| - 1), data)
    ensures IsCandidate(items, data) <==> !exists d :: 0 <= d < |items| - 1 && !Frequent(Dropped(items, d), data)
  {
    hide Frequent, IsItemset;
    if !exists d :: 0 <= d < |items| - 1 && !Frequent(Dropped(items, d), data) {
      forall d | 0 <= d < |items| ensures Frequent(Dropped(items, d), data) {
      }
    }
  }

  lemma NotGenerated(list: seq<Node>, children: seq<Node>, i: nat, j: nat, data: Data)
    requires i < j < |children| && (forall m :: 0 <= m < |children| ==> children[m].items != [])
    requires GeneratedUpTo(list, children, i, j, data) && !IsCandidate(children[i].items + [Last(children[j].items)], data)
    ensures GeneratedUpTo(list, children, i, j + 1, data)
  {
    hide IsCandidate, HasItems, IsChildList;
  }

  lemma GeneratedOne(list: seq<Node>, children: seq<Node>, i: nat, j: nat, data: Data)
    requires i < j < |children| && (forall m :: 0 <= m < |children| ==> children[m].items != [])
    requires GeneratedUpTo(list, children, i, j, data)
    requires var items := children[i].items + [Last(children[j].items)];
      IsCandidate(items, data) && IsItemset(items, data.universeSize) && IsParent(children[i].items, items)
    requires forall m :: i < m < j ==> Last(children[m].items) < Last(children[j].items)
    ensures GeneratedUpTo(list + [Node(children[i].items + [Last(children[j].items)], 0.0)], children, i, j + 1, data)
  {
    hide IsCandidate, HasItems, IsItemset;
    var joined := Node(children[i].items + [Last(children[j].items)], 0.0);
    HasItemsSplit(list, [joined], list + [joined]);
    OneItem(joined);
    forall l | 0 <= l < |list| ensures Last(list[l].items) < Last(joined.items) {
      var m :| i < m < j && Last(list[l].items) == Last(children[m].items);
    }
  }

  lemma AllSiblings(list: seq<Node>, children: seq<Node>, i: nat, parent: Itemset, data: Data)
    requires ListsFrequent(children, parent, data) && i < |children|
    requires forall m :: 0 <= m < |children| ==> children[m].items != []
    requires GeneratedUpTo(list, children, i, |children|, data)
    ensures ListsCandidates(list, children[i].items, data)
  {
    SiblingsHaveItems(children, parent, data);
    hide Frequent, IsItemset, IsCandidate, ListsFrequent;
    var q := children[i].items;
    forall s ensures HasItems(list, s) <==> IsParent(q, s) && IsCandidate(s, data) {
      if IsParent(q, s) && IsCandidate(s, data) {
        var m := SiblingOf(children, i, parent, data, s);
      }
      if HasItems(list, s) {
        var m :| i < m < |children| && s == q + [Last(children[m].items)] && IsCandidate(s, data);
        assert s[..|s| - 1] == q;
      }
    }
  }

  // The last item of a candidate is that of a sibling to the right.
  lemma SiblingOf(children: seq<Node>, i: nat, parent: Itemset, data: Data, s: Itemset) returns (m: nat)
    requires ListsFrequent(children, parent, data) && i < |children| && children[i].items != []
    requires IsParent(children[i].items, s) && IsCandidate(s, data)
    ensures i < m < |children| && children[m].items != [] && s == children[i].items + [Last(children[m].items)]
  {
    SiblingsHaveItems(children, parent, data);
    hide Frequent, IsItemset, IsCandidate;
    CandidateTail(s, data);
    var q := children[i].items;
    var other := Dropped(s, |s| - 2);
    assert s == q + [Last(s)] && other == parent + [Last(s)];
    assert other[..|other| - 1] == parent && s[|s| - 2] == Last(q);
    assert HasItems(children, other);
    m :| 0 <= m < |children| && children[m].items == other;
  }

  lemma CandidateTail(s: Itemset, data: Data)
    requires IsCandidate(s, data) && |s| >= 2
    ensures Frequent(Dropped(s, |s| - 2), data) && s[|s| - 2] < s[|s| - 1]
  {
    hide Frequent;
  }

  lemma NothingBehindLast(children: seq<Node>, parent: Itemset, data: Data)
    requires children != [] && ListsFrequent(children, parent, data)
    ensures ListsCandidates([], children[|children| - 1].items, data)
  {
    SiblingsHaveItems(children, parent, data);
    AllSiblings([], children, |children| - 1, parent, data);
  }

  lemma DistinctChildren(children: seq<Node>, parent: Itemset, data: Data)
    requires ListsFrequent(children, parent, data)
    ensures forall i, j :: 0 <= i < j < |children| ==> children[i].items != children[j].items
  {
  }

  lemma IsAmong(children: seq<Node>, i: nat)
    requires i < |children|
    ensures HasItems(children, children[i].items)
  {
  }

  // ----- the walk through the tree -----

  ghost function TreeItems(tree: Candidates): set<Itemset> {
    {[]} + set p, i | p in tree && 0 <= i < |tree[p]| :: tree[p][i].items
  }

  // A visited node above the last level has its children visited or on the path.
  ghost predicate Descended(path: seq<Node>, visited: set<Itemset>, tree: Candidates, k: nat) {
    forall v, i :: v in visited && |v| + 1 < k && 0 <= i < |ChildrenOf(tree, v)| ==>
      ChildrenOf(tree, v)[i].items in visited || HasItems(path, ChildrenOf(tree, v)[i].items)
  }

  // A visited node of the level before the last has its grandchildren listed.
  ghost predicate Generated(visited: set<Itemset>, tree: Candidates, candidates: Candidates, k: nat, data: Data) {
    forall v, i :: v in visited && |v| + 1 == k && 0 <= i < |ChildrenOf(tree, v)| ==>
      ListsCandidates(ChildrenOf(candidates, ChildrenOf(tree, v)[i].items), ChildrenOf(tree, v)[i].items, data)
  }

  ghost predicate OnPath(items: Itemset, visited: set<Itemset>, tree: Candidates, k: nat) {
    && items in TreeItems(tree) && items !in visited && |items| < k
    && (items != [] ==> items[..|items| - 1] in visited)
  }

  ghost predicate KeyOf(p: Itemset, visited: set<Itemset>, k: nat, data: Data) {
    |p| == k && Frequent(p, data) && p[..|p| - 1] in visited
  }

  // The nodes on the path are different, and none has been visited.
  ghost predicate PathFits(path: seq<Node>, visited: set<Itemset>, tree: Candidates, k: nat) {
    && (forall i :: 0 <= i < |path| ==> OnPath(path[i].items, visited, tree, k))
    && forall i, j :: 0 <= i < j < |path| ==> path[i].items != path[j].items
  }

  ghost predicate ParentsVisited(visited: set<Itemset>) {
    forall v :: v in visited && v != [] ==> v[..|v| - 1] in visited
  }

  ghost predicate KeysFit(candidates: Candidates, visited: set<Itemset>, k: nat, data: Data) {
    forall p :: p in candidates ==> candidates[p] != [] && KeyOf(p, visited, k, data)
  }

  ghost predicate Walked(path: seq<Node>, visited: set<Itemset>, tree: Candidates, candidates: Candidates, k: nat, data: Data) {
    && k >= 1 && TreeUpTo(tree, k, data) && visited <= TreeItems(tree) && ParentsVisited(visited)
    && PathFits(path, visited, tree, k) && ([] in visited || HasItems(path, []))
    && Descended(path, visited, tree, k) && Generated(visited, tree, candidates, k, data)
    && KeysFit(candidates, visited, k, data)
  }

  lemma WalkStarts(tree: Candidates, k: nat, data: Data)
    requires k >= 1 && TreeUpTo(tree, k, data)
    ensures Walked([Node([], 0.0)], {}, tree, map[], k, data)
  {
    assert [Node([], 0.0)][0].items == [];
  }

  lemma NodeToVisit(path: seq<Node>, visited: set<Itemset>, tree: Candidates, candidates: Candidates, k: nat, data: Data)
    requires path != [] && Walked(path, visited, tree, candidates, k, data)
    ensures var items := path[0].items;
      && items in TreeItems(tree) && items !in visited && |items| < k
      && TreeUpTo(tree, k, data) && ListsFrequent(ChildrenOf(tree, items), items, data)
      && forall i :: 0 <= i < |ChildrenOf(tree, items)| ==> ChildrenOf(tree, items)[i].items !in candidates
  {
    hide Frequent, IsItemset, HasItems;
    var items := path[0].items;
    assert OnPath(items, visited, tree, k);
    assert ListsFrequent(ChildrenOf(tree, items), items, data);
    forall i | 0 <= i < |ChildrenOf(tree, items)| ensures ChildrenOf(tree, items)[i].items !in candidates {
      var child := ChildrenOf(tree, items)[i].items;
      assert IsParent(items, child);
      assert child in candidates ==> KeyOf(child, visited, k, data);
    }
  }

  lemma PathHead(path: seq<Node>)
    requires path != []
    ensures forall s :: HasItems(path, s) <==> s == path[0].items || HasItems(path[1..], s)
  {
    assert path == [path[0]] + path[1..];
    HasItemsSplit([path[0]], path[1..], path);
    OneItem(path[0]);
  }

  lemma RestOfPath(path: seq<Node>, visited: set<Itemset>, tree: Candidates, k: nat)
    requires path != [] && PathFits(path, visited, tree, k)
    ensures PathFits(path[1..], visited + {path[0].items}, tree, k)
    ensures OnPath(path[0].items, visited, tree, k)
  {
    hide TreeItems;
  }

  lemma VisitOne(path: seq<Node>, visited: set<Itemset>, tree: Candidates, k: nat)
    requires path != [] && PathFits(path, visited, tree, k) && visited <= TreeItems(tree) && ParentsVisited(visited)
    requires [] in visited || HasItems(path, [])
    ensures visited + {path[0].items} <= TreeItems(tree) && ParentsVisited(visited + {path[0].items})
    ensures [] in visited + {path[0].items} || HasItems(path[1..], [])
  {
    hide TreeItems, HasItems;
    RestOfPath(path, visited, tree, k);
    PathHead(path);
  }

  lemma MoreVisited(candidates: Candidates, visited: set<Itemset>, items: Itemset, k: nat, data: Data)
    requires KeysFit(candidates, visited, k, data)
    ensures KeysFit(candidates, visited + {items}, k, data)
  {
    hide Frequent;
    forall p | p in candidates ensures KeyOf(p, visited + {items}, k, data) {
      assert KeyOf(p, visited, k, data);
    }
  }

  // The children of the node have been joined.
  lemma WalkGenerates(path: seq<Node>, visited: set<Itemset>, tree: Candidates, before: Candidates, candidates: Candidates,
                      k: nat, data: Data)
    requires path != [] && Walked(path, visited, tree, before, k, data) && |path[0].items| + 1 == k
    requires OnlyAdded(before, candidates, ChildrenOf(tree, path[0].items))
    requires var children := ChildrenOf(tree, path[0].items);
      forall i :: 0 <= i < |children| ==> ListsCandidates(ChildrenOf(candidates, children[i].items), children[i].items, data)
    ensures Walked(path[1..], visited + {path[0].items}, tree, candidates, k, data)
  {
    hide ListsCandidates, HasItems, Frequent, IsItemset, TreeItems, TreeUpTo, PathFits, ParentsVisited, OnlyAdded, KeysFit;
    hide Generated, Descended;
    NodeToVisit(path, visited, tree, before, k, data);
    RestOfPath(path, visited, tree, k);
    VisitOne(path, visited, tree, k);
    DescendedDeep(path, visited, tree, k);
    KeysAdded(visited, tree, before, candidates, k, data, path[0].items);
    GeneratedMore(visited, tree, before, candidates, k, data, path[0].items);
  }

  // New keys are itemsets of the children.
  ghost predicate OnlyAdded(before: Candidates, candidates: Candidates, children: seq<Node>) {
    && candidates.Keys >= before.Keys && (forall p :: p in before ==> candidates[p] == before[p])
    && forall p :: p in candidates && p !in before ==> HasItems(children, p) && candidates[p] != []
  }

  lemma DescendedDeep(path: seq<Node>, visited: set<Itemset>, tree: Candidates, k: nat)
    requires path != [] && Descended(path, visited, tree, k) && |path[0].items| + 1 == k
    ensures Descended(path[1..], visited + {path[0].items}, tree, k)
  {
    PathHead(path);
    hide HasItems;
  }

  lemma KeysAdded(visited: set<Itemset>, tree: Candidates, before: Candidates, candidates: Candidates, k: nat, data: Data, items: Itemset)
    requires KeysFit(before, visited, k, data) && |items| + 1 == k && ListsFrequent(ChildrenOf(tree, items), items, data)
    requires OnlyAdded(before, candidates, ChildrenOf(tree, items))
    ensures KeysFit(candidates, visited + {items}, k, data)
  {
    hide HasItems, Frequent, IsItemset;
    forall p | p in candidates ensures candidates[p] != [] && KeyOf(p, visited + {items}, k, data) {
      if p in before {
        assert KeyOf(p, visited, k, data);
      } else {
        assert HasItems(ChildrenOf(tree, items), p);
      }
    }
  }

  lemma GeneratedMore(visited: set<Itemset>, tree: Candidates, before: Candidates, candidates: Candidates, k: nat, data: Data, items: Itemset)
    requires Generated(visited, tree, before, k, data) && TreeUpTo(tree, k, data) && |items| < k && items !in visited
    requires OnlyAdded(before, candidates, ChildrenOf(tree, items))
    requires var children := ChildrenOf(tree, items);
      forall i :: 0 <= i < |children| ==> ListsCandidates(ChildrenOf(candidates, children[i].items), children[i].items, data)
    ensures Generated(visited + {items}, tree, candidates, k, data)
  {
    hide ListsCandidates, Frequent, IsItemset, HasItems;
    assert ListsFrequent(ChildrenOf(tree, items), items, data);
    forall v, i | v in visited + {items} && |v| + 1 == k && 0 <= i < |ChildrenOf(tree, v)|
      ensures ListsCandidates(ChildrenOf(candidates, ChildrenOf(tree, v)[i].items), ChildrenOf(tree, v)[i].items, data)
    {
      if v != items {
        GeneratedBefore(visited, tree, before, candidates, k, data, v, i, ChildrenOf(tree, items), items);
      }
    }
  }

  // Joining under one node leaves the candidates under other nodes alone.
  lemma GeneratedBefore(visited: set<Itemset>, tree: Candidates, before: Candidates, candidates: Candidates, k: nat, data: Data,
                        v: Itemset, i: nat, children: seq<Node>, other: Itemset)
    requires Generated(visited, tree, before, k, data) && TreeUpTo(tree, k, data)
    requires v in visited && |v| + 1 == k && i < |ChildrenOf(tree, v)| && v != other && ListsFrequent(children, other, data)
    requires OnlyAdded(before, candidates, children)
    ensures ListsCandidates(ChildrenOf(candidates, ChildrenOf(tree, v)[i].items), ChildrenOf(tree, v)[i].items, data)
  {
    hide ListsCandidates, Frequent, IsItemset;
    var list := ChildrenOf(tree, v);
    var child := list[i].items;
    assert ListsFrequent(list, v, data) && IsParent(v, child);
    assert HasItems(children, child) ==> IsParent(other, child);
    assert ChildrenOf(candidates, child) == ChildrenOf(before, child);
  }

  // The children of the node are put on the path.
  lemma WalkDescends(path: seq<Node>, visited: set<Itemset>, tree: Candidates, candidates: Candidates, k: nat, data: Data)
    requires path != [] && Walked(path, visited, tree, candidates, k, data)
    requires |path[0].items| + 1 < k || ChildrenOf(tree, path[0].items) == []
    ensures Walked(ChildrenOf(tree, path[0].items) + path[1..], visited + {path[0].items}, tree, candidates, k, data)
  {
    hide ListsCandidates, HasItems, Frequent, IsItemset, TreeItems, TreeUpTo, PathFits, ParentsVisited, KeysFit, Generated, Descended;
    NodeToVisit(path, visited, tree, candidates, k, data);
    VisitOne(path, visited, tree, k);
    HasItemsSplit(ChildrenOf(tree, path[0].items), path[1..], ChildrenOf(tree, path[0].items) + path[1..]);
    DescendedStep(path, visited, tree, k);
    GeneratedStays(visited, tree, candidates, k, data, path[0].items);
    MoreVisited(candidates, visited, path[0].items, k, data);
    RestOfPath(path, visited, tree, k);
    PathGrows(path, visited, tree, k, data);
  }

  lemma DescendedStep(path: seq<Node>, visited: set<Itemset>, tree: Candidates, k: nat)
    requires path != [] && Descended(path, visited, tree, k)
    ensures Descended(ChildrenOf(tree, path[0].items) + path[1..], visited + {path[0].items}, tree, k)
  {
    var children, rest := ChildrenOf(tree, path[0].items), path[1..];
    PathHead(path);
    HasItemsSplit(children, rest, children + rest);
    forall i | 0 <= i < |children| ensures HasItems(children, children[i].items) {
      IsAmong(children, i);
    }
    hide HasItems;
  }

  lemma GeneratedStays(visited: set<Itemset>, tree: Candidates, candidates: Candidates, k: nat, data: Data, items: Itemset)
    requires Generated(visited, tree, candidates, k, data) && (|items| + 1 < k || ChildrenOf(tree, items) == [])
    ensures Generated(visited + {items}, tree, candidates, k, data)
  {
    hide ListsCandidates;
  }

  lemma PathGrows(path: seq<Node>, visited: set<Itemset>, tree: Candidates, k: nat, data: Data)
    requires path != [] && PathFits(path, visited, tree, k) && TreeUpTo(tree, k, data) && ParentsVisited(visited)
    requires |path[0].items| + 1 < k || ChildrenOf(tree, path[0].items) == []
    ensures PathFits(ChildrenOf(tree, path[0].items) + path[1..], visited + {path[0].items}, tree, k)
  {
    hide Frequent, IsItemset, HasItems, TreeItems, OnPath, PathFits, TreeUpTo;
    var items, more := path[0].items, visited + {path[0].items};
    var children := ChildrenOf(tree, items);
    RestOfPath(path, visited, tree, k);
    OnPathMeans(items, visited, tree, k);
    ChildrenAreChildren(tree, k, items, data);
    forall i | 0 <= i < |children| ensures OnPath(children[i].items, more, tree, k) {
      ChildOnPath(visited, tree, k, items, i);
    }
    OtherParents(path, visited, tree, k, children);
    PathsJoin(children, path[1..], more, tree, k);
  }

  // The rest of the path has visited parents, so its itemsets are not among the children.
  lemma OtherParents(path: seq<Node>, visited: set<Itemset>, tree: Candidates, k: nat, children: seq<Node>)
    requires path != [] && PathFits(path, visited, tree, k)
    requires forall i :: 0 <= i < |children| ==> IsParent(path[0].items, children[i].items)
    ensures forall i, j :: 0 <= i < |children| && 0 <= j < |path[1..]| ==> children[i].items != path[1..][j].items
  {
    hide OnPath;
    OnPathMeans(path[0].items, visited, tree, k);
    forall i, j | 0 <= i < |children| && 0 < j < |path| ensures children[i].items != path[j].items {
      OnPathMeans(path[j].items, visited, tree, k);
    }
  }

  lemma PathsJoin(p: seq<Node>, q: seq<Node>, visited: set<Itemset>, tree: Candidates, k: nat)
    requires (forall i :: 0 <= i < |p| ==> OnPath(p[i].items, visited, tree, k)) && PathFits(q, visited, tree, k)
    requires forall i, j :: 0 <= i < j < |p| ==> p[i].items != p[j].items
    requires forall i, j :: 0 <= i < |p| && 0 <= j < |q| ==> p[i].items != q[j].items
    ensures PathFits(p + q, visited, tree, k)
  {
    hide OnPath;
  }

  lemma ChildrenAreChildren(tree: Candidates, k: nat, items: Itemset, data: Data)
    requires TreeUpTo(tree, k, data) && |items| < k
    ensures var children := ChildrenOf(tree, items);
      && (forall i :: 0 <= i < |children| ==> IsParent(items, children[i].items))
      && forall i, j :: 0 <= i < j < |children| ==> children[i].items != children[j].items
  {
    assert ListsFrequent(ChildrenOf(tree, items), items, data);
    DistinctChildren(ChildrenOf(tree, items), items, data);
  }

  lemma OnPathMeans(items: Itemset, visited: set<Itemset>, tree: Candidates, k: nat)
    requires OnPath(items, visited, tree, k)
    ensures items !in visited && |items| < k && (items != [] ==> items[..|items| - 1] in visited)
  {
  }

  lemma ChildOnPath(visited: set<Itemset>, tree: Candidates, k: nat, items: Itemset, i: nat)
    requires ParentsVisited(visited) && items !in visited && |items| + 1 < k && i < |ChildrenOf(tree, items)|
    requires IsParent(items, ChildrenOf(tree, items)[i].items)
    ensures OnPath(ChildrenOf(tree, items)[i].items, visited + {items}, tree, k)
  {
  }

  // Every node above the last level is visited in the end.
  lemma {:induction false} AllVisited(visited: set<Itemset>, tree: Candidates, candidates: Candidates, k: nat, data: Data, p: Itemset)
    requires Walked([], visited, tree, candidates, k, data) && |p| < k && (p == [] || Frequent(p, data))
    ensures p in visited
    decreases |p|
  {
    hide Frequent, IsItemset;
    if p != [] {
      var parent := p[..|p| - 1];
      if parent != [] {
        PrefixFrequent(p, |p| - 1, data);
      }
      AllVisited(visited, tree, candidates, k, data, parent);
      var list := ChildrenOf(tree, parent);
      assert ListsFrequent(list, parent, data) && IsParent(parent, p) && HasItems(list, p);
      var i :| 0 <= i < |list| && list[i].items == p;
    }
  }

  lemma WalkEnds(visited: set<Itemset>, tree: Candidates, candidates: Candidates, k: nat, data: Data)
    requires Walked([], visited, tree, candidates, k, data)
    ensures CandidatesOf(candidates, k + 1, data)
  {
    hide Frequent, IsItemset, HasItems, ListsCandidates, TreeUpTo, Generated, Descended, PathFits;
    assert forall p :: p in candidates ==> KeyOf(p, visited, k, data);
    forall p: Itemset | |p| == k ensures ListsCandidates(ChildrenOf(candidates, p), p, data) {
      if Frequent(p, data) {
        UnderVisited(visited, tree, candidates, k, data, p);
      } else {
        NoCandidates(p, data);
      }
    }
  }

  lemma UnderVisited(visited: set<Itemset>, tree: Candidates, candidates: Candidates, k: nat, data: Data, p: Itemset)
    requires Walked([], visited, tree, candidates, k, data) && |p| == k && Frequent(p, data)
    ensures ListsCandidates(ChildrenOf(candidates, p), p, data)
  {
    hide Frequent, IsItemset, ListsCandidates;
    var parent := p[..|p| - 1];
    if parent != [] {
      PrefixFrequent(p, |p| - 1, data);
    }
    AllVisited(visited, tree, candidates, k, data, parent);
    var list := ChildrenOf(tree, parent);
    assert ListsFrequent(list, parent, data) && IsParent(parent, p) && HasItems(list, p);
    var i :| 0 <= i < |list| && list[i].items == p;
  }

  // Under an itemset that is not frequent there are no candidates.
  lemma NoCandidates(p: Itemset, data: Data)
    requires p != [] && !Frequent(p, data)
    ensures ListsCandidates([], p, data)
  {
    hide Frequent, IsItemset;
    forall s | IsParent(p, s) ensures !IsCandidate(s, data) {
      assert Dropped(s, |s| - 1) == p;
    }
  }

  // ----- one round -----

  lemma NothingInTree(data: Data)
    ensures TreeUpTo(map[], 0, data)
  {
  }

  lemma {:induction false} ItemsetSize(items: Itemset, universeSize: nat)
    requires IsItemset(items, universeSize)
    ensures |items| <= universeSize
  {
    if items != [] {
      ItemsetSize(items[..|items| - 1], Last(items));
    }
  }

  lemma CandidatesFit(candidates: Candidates, k: nat, data: Data)
    requires candidates != map[] && CandidatesOf(candidates, k, data)
    ensures k <= data.universeSize && ExtendParents(candidates)
    ensures forall p, i :: p in candidates && 0 <= i < |candidates[p]| ==> |candidates[p][i].items| == k
  {
    hide Frequent, IsItemset, IsCandidate;
    forall p, i | p in candidates && 0 <= i < |candidates[p]|
      ensures IsParent(p, candidates[p][i].items) && IsItemset(candidates[p][i].items, data.universeSize)
    {
      assert ListsCandidates(ChildrenOf(candidates, p), p, data);
    }
    assert candidates.Keys != {};
    var p :| p in candidates;
    ItemsetSize(candidates[p][0].items, data.universeSize);
  }

  lemma CountedItems(root: HashTreeNode, candidates: Candidates, k: nat, data: Data)
    requires RowItems(root) == CandidateItems(candidates) && CandidatesOf(candidates, k, data)
    ensures forall r :: r in RowsOf(root) ==> IsAscending(r.items)
  {
    hide RowsOf, IsCandidate, Frequent;
    forall r | r in RowsOf(root) ensures IsAscending(r.items) {
      assert (r.items, r.parent) in RowItems(root);
      var p, i :| p in candidates && 0 <= i < |candidates[p]| && (r.items, r.parent) == (candidates[p][i].items, p);
      assert ListsCandidates(ChildrenOf(candidates, p), p, data);
    }
  }

  lemma AllItemsCounted(root: HashTreeNode, candidates: Candidates)
    requires RowItems(root) == CandidateItems(candidates)
    ensures forall p, i :: p in candidates && 0 <= i < |candidates[p]| ==> candidates[p][i].items in ItemsOf(RowsOf(root))
  {
    hide RowsOf;
    forall p, i | p in candidates && 0 <= i < |candidates[p]| ensures candidates[p][i].items in ItemsOf(RowsOf(root)) {
      assert (candidates[p][i].items, p) in RowItems(root);
    }
  }

  lemma AppendedLevel(start: Candidates, tree: Candidates, pruned: Candidates, before: Candidates, done: set<Itemset>, k: nat, data: Data)
    requires k >= 1 && TreeUpTo(start, k - 1, data) && CandidatesOf(before, k, data)
    requires AreJudged(pruned, before, done, data.support, data.minsup)
    requires forall p, i :: p in before && 0 <= i < |before[p]| ==> before[p][i].items in done
    requires forall p :: ChildrenOf(tree, p) == ChildrenOf(start, p) + ChildrenOf(pruned, p)
    ensures TreeUpTo(tree, k, data)
  {
    hide Frequent, IsItemset, IsCandidate, ListsFrequent, ListsCandidates, Judged;
    forall p: Itemset
      ensures if |p| < k then ListsFrequent(ChildrenOf(tree, p), p, data) else ChildrenOf(tree, p) == []
    {
      if |p| + 1 == k {
        JudgedLevel(pruned, before, done, k, data, p);
        assert ChildrenOf(tree, p) == ChildrenOf(pruned, p);
      } else {
        assert p !in before;
        assert ChildrenOf(tree, p) == ChildrenOf(start, p);
      }
    }
  }

  lemma JudgedLevel(pruned: Candidates, before: Candidates, done: set<Itemset>, k: nat, data: Data, p: Itemset)
    requires CandidatesOf(before, k, data) && |p| + 1 == k
    requires AreJudged(pruned, before, done, data.support, data.minsup)
    requires forall p, i :: p in before && 0 <= i < |before[p]| ==> before[p][i].items in done
    ensures ListsFrequent(ChildrenOf(pruned, p), p, data)
  {
    hide Frequent, IsItemset, IsCandidate, ListsFrequent, ListsCandidates;
    assert ListsCandidates(ChildrenOf(before, p), p, data);
    JudgedIsFrequent(ChildrenOf(before, p), done, data, p);
    assert ChildrenOf(pruned, p) == Judged(ChildrenOf(before, p), done, data.support, data.minsup);
  }

  lemma NoneOfSize(items: Itemset, data: Data)
    requires items != [] && CandidatesOf(map[], |items|, data)
    ensures !Frequent(items, data)
  {
    hide Frequent, IsItemset, IsCandidate;
    var parent := items[..|items| - 1];
    assert ListsCandidates(ChildrenOf(map[], parent), parent, data) && IsParent(parent, items);
    assert !HasItems([], items);
    if Frequent(items, data) {
      FrequentIsCandidate(items, data);
    }
  }

  // Without candidates of k items there are no frequent itemsets of k items or more.
  lemma NothingLarger(tree: Candidates, k: nat, data: Data)
    requires k >= 1 && TreeUpTo(tree, k - 1, data) && CandidatesOf(map[], k, data)
    ensures forall p :: ListsFrequent(ChildrenOf(tree, p), p, data)
  {
    hide CandidatesOf, ListsFrequent;
    forall p: Itemset | |p| + 1 >= k ensures ListsFrequent([], p, data) {
      NothingLargerUnder(p, k, data);
    }
  }

  lemma NothingLargerUnder(p: Itemset, k: nat, data: Data)
    requires 1 <= k <= |p| + 1 && CandidatesOf(map[], k, data)
    ensures ListsFrequent([], p, data)
  {
    hide Frequent, IsItemset, IsCandidate, CandidatesOf;
    forall s | IsParent(p, s) ensures !Frequent(s, data) {
      NoneOfSize(s[..k], data);
      if Frequent(s, data) {
        PrefixFrequent(s, k, data);
      }
    }
  }

  // ----- looking up a support -----

  // s follows the wanted items: each item is the least one not below the wanted item that keeps the itemset frequent.
  ghost predicate IsReachedUpTo(s: Itemset, wanted: Itemset, data: Data) {
    && |s| <= |wanted|
    && forall i :: 0 <= i < |s| ==> IsNext(s[..i], s[i], wanted[i], data)
  }

  ghost predicate IsNext(parent: Itemset, item: nat, wanted: nat, data: Data) {
    && Frequent(parent + [item], data) && item >= wanted
    && forall x: nat :: wanted <= x < item ==> !Frequent(parent + [x], data)
  }

  ghost predicate IsReached(s: Itemset, wanted: Itemset, data: Data) {
    s != [] && |s| == |wanted| && IsReachedUpTo(s, wanted, data)
  }

  lemma ReachedAtFirst(wanted: Itemset, data: Data)
    ensures IsReachedUpTo([], wanted, data)
  {
  }

  // At most one itemset is reached.
  lemma {:induction false} ReachedOnce(s: Itemset, t: Itemset, wanted: Itemset, n: nat, data: Data)
    requires IsReachedUpTo(s, wanted, data) && IsReachedUpTo(t, wanted, data) && n <= |s| && n <= |t|
    ensures s[..n] == t[..n]
    decreases n
  {
    hide Frequent;
    if n > 0 {
      ReachedOnce(s, t, wanted, n - 1, data);
      assert IsNext(s[..n - 1], s[n - 1], wanted[n - 1], data) && IsNext(t[..n - 1], t[n - 1], wanted[n - 1], data);
      assert s[..n] == s[..n - 1] + [s[n - 1]] && t[..n] == t[..n - 1] + [t[n - 1]];
    }
  }

  lemma ReachedAtEnd(s: Itemset, wanted: Itemset, data: Data)
    requires s != [] && |s| == |wanted| && IsReachedUpTo(s, wanted, data)
    ensures IsReached(s, wanted, data) && forall t :: IsReached(t, wanted, data) ==> t == s
  {
    hide IsReachedUpTo;
    forall t | IsReached(t, wanted, data) ensures t == s {
      ReachedOnce(s, t, wanted, |s|, data);
      assert s[..|s|] == s && t[..|s|] == t;
    }
  }

  lemma NothingReached(wanted: Itemset, data: Data)
    requires wanted == []
    ensures forall s :: !IsReached(s, wanted, data)
  {
  }

  // A frequent itemset is the one that is reached.
  lemma FrequentIsReached(wanted: Itemset, data: Data)
    ensures Frequent(wanted, data) ==> IsReached(wanted, wanted, data)
  {
    hide IsItemset;
    if Frequent(wanted, data) {
      forall i | 0 <= i < |wanted| ensures IsNext(wanted[..i], wanted[i], wanted[i], data) {
        PrefixFrequent(wanted, i + 1, data);
        assert wanted[..i + 1] == wanted[..i] + [wanted[i]];
      }
    }
  }

  lemma ChildSizes(path: seq<Node>, parent: Itemset, data: Data)
    requires ListsFrequent(path, parent, data)
    ensures forall i :: 0 <= i < |path| ==> |path[i].items| == |parent| + 1
    ensures forall i :: 0 <= i < |path| ==> path[i].support == data.support(path[i].items)
  {
  }

  // The first child not below the wanted item follows it; without one nothing is reached.
  lemma FirstNotBelow(path: seq<Node>, parent: Itemset, wanted: Itemset, itemIndex: nat, nextNode: nat, data: Data)
    requires ListsFrequent(path, parent, data) && |parent| == itemIndex < |wanted| && nextNode <= |path|
    requires forall i :: 0 <= i < |path| ==> |path[i].items| == itemIndex + 1
    requires forall i :: 0 <= i < nextNode ==> path[i].items[itemIndex] < wanted[itemIndex]
    requires nextNode < |path| ==> path[nextNode].items[itemIndex] >= wanted[itemIndex]
    requires IsReachedUpTo(parent, wanted, data)
    ensures nextNode < |path| ==> IsReachedUpTo(path[nextNode].items, wanted, data)
    ensures nextNode == |path| ==> forall s :: !IsReached(s, wanted, data)
  {
    hide Frequent, IsItemset;
    if nextNode < |path| {
      var s, item := path[nextNode].items, path[nextNode].items[itemIndex];
      assert HasItems(path, s) && IsParent(parent, s);
      assert s == parent + [item];
      forall x: nat | wanted[itemIndex] <= x < item ensures !Frequent(parent + [x], data) {
        NoChildBetween(path, parent, wanted, itemIndex, nextNode, data, x);
      }
      assert IsNext(s[..itemIndex], s[itemIndex], wanted[itemIndex], data);
      forall i | 0 <= i < itemIndex ensures IsNext(s[..i], s[i], wanted[i], data) {
        assert s[..i] == parent[..i] && s[i] == parent[i];
      }
    } else {
      forall s | IsReached(s, wanted, data) ensures false {
        ReachedOnce(s, parent, wanted, itemIndex, data);
        assert s[..itemIndex] == parent[..itemIndex] == parent;
        assert IsNext(parent, s[itemIndex], wanted[itemIndex], data);
        NoChildBetween(path, parent, wanted, itemIndex, nextNode, data, s[itemIndex]);
      }
    }
  }

  lemma NoChildBetween(path: seq<Node>, parent: Itemset, wanted: Itemset, itemIndex: nat, nextNode: nat, data: Data, x: nat)
    requires ListsFrequent(path, parent, data) && |parent| == itemIndex < |wanted| && nextNode <= |path|
    requires forall i :: 0 <= i < |path| ==> |path[i].items| == itemIndex + 1
    requires forall i :: 0 <= i < nextNode ==> path[i].items[itemIndex] < wanted[itemIndex]
    requires wanted[itemIndex] <= x && (nextNode < |path| ==> x < path[nextNode].items[itemIndex])
    ensures !Frequent(parent + [x], data)
  {
    hide Frequent, IsItemset;
    var t := parent + [x];
    assert t[..itemIndex] == parent && IsParent(parent, t);
    forall at | 0 <= at < |path| ensures path[at].items[itemIndex] != t[itemIndex] {
      if nextNode < at {
        assert Last(path[nextNode].items) < Last(path[at].items);
      }
    }
  }

  // ----- counted and true supports -----

  // The support that a row of the itemset gives, for itemsets of k items.
  ghost function CountedSupport(rows: set<LeafRow>, items: Itemset, total: nat): (support: real)
    requires total > 0
    ensures support >= 0.0
  {
    if r :| r in rows && r.items == items then r.transactionCount as real / total as real else 0.0
  }

  ghost function WithCounts(data: Data, rows: set<LeafRow>, k: nat, total: nat): Data
    requires total > 0
  {
    data.(support := items => if |items| == k then CountedSupport(rows, items, total) else data.support(items))
  }

  // The counts are never above the supports; below size k those of candidates are the supports if ids can be told apart.
  ghost predicate SupportsFit(data: Data, input: Input, k: nat) {
    && (forall items :: data.support(items) <= Support(input.transactions, items))
    && (ToldApart(input.transactions) ==>
          forall items :: |items| < k && IsCandidate(items, data) ==> data.support(items) == Support(input.transactions, items))
  }

  lemma NothingCountedYet(data: Data, input: Input)
    requires forall items :: data.support(items) == 0.0
    ensures SupportsFit(data, input, 1)
  {
  }

  lemma {:induction false} SameBelow(items: Itemset, data: Data, data': Data, k: nat)
    requires data'.universeSize == data.universeSize && data'.minsup == data.minsup && |items| < k
    requires forall s: Itemset :: |s| < k ==> data'.support(s) == data.support(s)
    ensures Frequent(items, data') <==> Frequent(items, data)
    decreases |items|
  {
    if |items| >= 2 {
      forall i | 0 <= i < |items| ensures Frequent(Dropped(items, i), data') <==> Frequent(Dropped(items, i), data) {
        SameBelow(Dropped(items, i), data, data', k);
      }
    }
  }

  lemma SameCandidates(items: Itemset, data: Data, data': Data, k: nat)
    requires data'.universeSize == data.universeSize && data'.minsup == data.minsup && |items| <= k
    requires forall s: Itemset :: |s| < k ==> data'.support(s) == data.support(s)
    ensures IsCandidate(items, data') <==> IsCandidate(items, data)
  {
    hide Frequent;
    forall i | 0 <= i < |items| ensures Frequent(Dropped(items, i), data') <==> Frequent(Dropped(items, i), data) {
      SameBelow(Dropped(items, i), data, data', k);
    }
  }

  // Counting the itemsets of k items changes nothing below.
  lemma SameLevels(tree: Candidates, candidates: Candidates, k: nat, data: Data, data': Data)
    requires data'.universeSize == data.universeSize && data'.minsup == data.minsup && k >= 1
    requires forall s: Itemset :: |s| < k ==> data'.support(s) == data.support(s)
    requires TreeUpTo(tree, k - 1, data) && CandidatesOf(candidates, k, data)
    ensures TreeUpTo(tree, k - 1, data') && CandidatesOf(candidates, k, data')
  {
    hide Frequent, ListsFrequent, ListsCandidates;
    forall p: Itemset | |p| < k - 1 ensures ListsFrequent(ChildrenOf(tree, p), p, data') {
      SameChildren(ChildrenOf(tree, p), p, k, data, data');
    }
    forall p | p in candidates && p != [] ensures Frequent(p, data') {
      SameBelow(p, data, data', k);
    }
    forall p: Itemset | |p| + 1 == k ensures ListsCandidates(ChildrenOf(candidates, p), p, data') {
      SameListed(ChildrenOf(candidates, p), p, k, data, data');
    }
  }

  lemma SameListed(list: seq<Node>, p: Itemset, k: nat, data: Data, data': Data)
    requires data'.universeSize == data.universeSize && data'.minsup == data.minsup && |p| + 1 == k
    requires forall s: Itemset :: |s| < k ==> data'.support(s) == data.support(s)
    requires ListsCandidates(list, p, data)
    ensures ListsCandidates(list, p, data')
  {
    hide IsCandidate, IsItemset, HasItems;
    forall s | IsParent(p, s) ensures IsCandidate(s, data') <==> IsCandidate(s, data) {
      SameCandidates(s, data, data', k);
    }
  }

  lemma SameChildren(list: seq<Node>, p: Itemset, k: nat, data: Data, data': Data)
    requires data'.universeSize == data.universeSize && data'.minsup == data.minsup && |p| + 1 < k
    requires forall s: Itemset :: |s| < k ==> data'.support(s) == data.support(s)
    requires ListsFrequent(list, p, data)
    ensures ListsFrequent(list, p, data')
  {
    hide Frequent, IsItemset, HasItems;
    forall s | IsParent(p, s) ensures Frequent(s, data') <==> Frequent(s, data) {
      SameBelow(s, data, data', k);
    }
    forall i | 0 <= i < |list| ensures list[i].support == data'.support(list[i].items) {
      assert IsParent(p, list[i].items);
    }
  }

  lemma OneRowAtFirst(root: HashTreeNode, candidates: Candidates, transactions: Transactions)
    requires RowItems(root) == CandidateItems(candidates) && ExtendParents(candidates) && HasCounts(RowsOf(root), transactions, {})
    ensures OneRowEach(RowsOf(root))
  {
    hide RowsOf;
    RowsHaveParents(root, candidates);
    forall r | r in RowsOf(root) ensures r.transactionCount == 0 {
      assert Supporting(transactions, {}, r.items) == {};
    }
  }

  lemma RowGivesSupport(rows: set<LeafRow>, r: LeafRow, total: nat)
    requires OneRowEach(rows) && r in rows && total > 0
    ensures CountedSupport(rows, r.items, total) == r.transactionCount as real / total as real
  {
  }

  lemma ShareAtMost(rows: set<LeafRow>, items: Itemset, transactions: Transactions)
    requires |transactions| > 0 && CountsAtMost(rows, transactions, transactions.Keys)
    ensures CountedSupport(rows, items, |transactions|) <= Support(transactions, items)
  {
    if r :| r in rows && r.items == items {
      forall s | s in rows && s.items == items
        ensures s.transactionCount as real / |transactions| as real <= Support(transactions, items)
      {
        FractionMonotone(s.transactionCount, |Supporting(transactions, transactions.Keys, items)|, |transactions|);
      }
    }
  }

  // One level more has been counted.
  lemma LevelCounted(root: HashTreeNode, candidates: Candidates, tree: Candidates, k: nat, data: Data, input: Input)
    requires k >= 1 && TreeUpTo(tree, k - 1, data) && CandidatesOf(candidates, k, data) && SupportsFit(data, input, k)
    requires RowItems(root) == CandidateItems(candidates) && OneRowEach(RowsOf(root))
    requires CountsAtMost(RowsOf(root), input.transactions, input.transactions.Keys)
    requires ToldApart(input.transactions) ==> HasCounts(RowsOf(root), input.transactions, input.transactions.Keys)
    ensures var data' := WithCounts(data, RowsOf(root), k, |input.transactions|);
      && TreeUpTo(tree, k - 1, data') && CandidatesOf(candidates, k, data') && SupportsFit(data', input, k + 1)
      && AreSupports(RowsOf(root), data'.support, |input.transactions|)
  {
    hide RowsOf, TreeUpTo, CandidatesOf, Support, IsCandidate, HasCounts, CountsAtMost, OneRowEach, ToldApart, CountedSupport;
    var rows, total := RowsOf(root), |input.transactions|;
    var data' := WithCounts(data, rows, k, total);
    SameLevels(tree, candidates, k, data, data');
    forall items ensures data'.support(items) <= Support(input.transactions, items) {
      ShareAtMost(rows, items, input.transactions);
    }
    forall r | r in rows ensures r.transactionCount as real / total as real == data'.support(r.items) {
      RowSize(root, candidates, k, data, r);
      RowGivesSupport(rows, r, total);
    }
    if ToldApart(input.transactions) {
      forall items | |items| < k + 1 && IsCandidate(items, data')
        ensures data'.support(items) == Support(input.transactions, items)
      {
        SameCandidates(items, data, data', k);
        if |items| == k {
          var r := RowOfCandidate(root, candidates, k, data, items);
          RowGivesSupport(rows, r, total);
          TrueCount(rows, r, input.transactions);
        }
      }
    }
  }

  lemma TrueCount(rows: set<LeafRow>, r: LeafRow, transactions: Transactions)
    requires |transactions| > 0 && HasCounts(rows, transactions, transactions.Keys) && r in rows
    ensures r.transactionCount as real / |transactions| as real == Support(transactions, r.items)
  {
  }

  lemma RowSize(root: HashTreeNode, candidates: Candidates, k: nat, data: Data, r: LeafRow)
    requires RowItems(root) == CandidateItems(candidates) && CandidatesOf(candidates, k, data) && r in RowsOf(root)
    ensures |r.items| == k
  {
    hide RowsOf, IsCandidate, Frequent;
    assert (r.items, r.parent) in RowItems(root);
    var p, i :| p in candidates && 0 <= i < |candidates[p]| && (r.items, r.parent) == (candidates[p][i].items, p);
    assert ListsCandidates(ChildrenOf(candidates, p), p, data);
  }

  lemma RowOfCandidate(root: HashTreeNode, candidates: Candidates, k: nat, data: Data, items: Itemset) returns (r: LeafRow)
    requires RowItems(root) == CandidateItems(candidates) && CandidatesOf(candidates, k, data)
    requires |items| == k && IsCandidate(items, data)
    ensures r in RowsOf(root) && r.items == items
  {
    hide RowsOf, Frequent, IsItemset;
    var p := items[..k - 1];
    assert ListsCandidates(ChildrenOf(candidates, p), p, data) && IsParent(p, items);
    var i :| 0 <= i < |ChildrenOf(candidates, p)| && ChildrenOf(candidates, p)[i].items == items;
    assert (items, p) in CandidateItems(candidates);
    r :| r in RowsOf(root) && (items, p) == (r.items, r.parent);
  }

  // What is frequent by the counts is frequent, and if ids can be told apart the other way around.
  lemma CountsDecide(data: Data, input: Input, k: nat)
    requires k >= 1 && SupportsFit(data, input, k) && CandidatesOf(map[], k, data)
    requires data.universeSize == input.universeSize && data.minsup == input.minsup
    ensures forall items :: Frequent(items, data) ==> TrulyFrequent(items, input)
    ensures ToldApart(input.transactions) ==> forall items :: TrulyFrequent(items, input) ==>
      Frequent(items, data) && data.support(items) == Support(input.transactions, items)
  {
    hide Support, IsItemset, CandidatesOf, ToldApart, IsCandidate;
    forall items | Frequent(items, data) ensures TrulyFrequent(items, input) {
    }
    if ToldApart(input.transactions) {
      forall items | TrulyFrequent(items, input)
        ensures Frequent(items, data) && data.support(items) == Support(input.transactions, items)
      {
        TrulyFrequentIsCounted(items, data, input, k);
      }
    }
  }

  lemma {:induction false} TrulyFrequentIsCounted(items: Itemset, data: Data, input: Input, k: nat)
    requires k >= 1 && SupportsFit(data, input, k) && CandidatesOf(map[], k, data) && ToldApart(input.transactions)
    requires data.universeSize == input.universeSize && data.minsup == input.minsup && TrulyFrequent(items, input)
    ensures Frequent(items, data) && data.support(items) == Support(input.transactions, items)
    decreases |items|
  {
    hide Support, CandidatesOf, ToldApart, SupportsFit;
    if |items| >= 2 {
      forall i | 0 <= i < |items| ensures Frequent(Dropped(items, i), data) {
        DroppedIsTrulyFrequent(items, i, input);
        TrulyFrequentIsCounted(Dropped(items, i), data, input, k);
      }
    }
    assert IsCandidate(items, data);
    SmallCandidate(items, data, k);
    CandidateSupport(items, data, input, k);
  }

  lemma DroppedIsTrulyFrequent(items: Itemset, i: nat, input: Input)
    requires TrulyFrequent(items, input) && i < |items| && |items| >= 2
    ensures TrulyFrequent(Dropped(items, i), input)
  {
    var rest := Dropped(items, i);
    forall j | 0 <= j < |rest| ensures rest[j] == items[if j < i then j else j + 1] && rest[j] in items {
    }
    SupportMonotone(input.transactions, rest, items);
  }

  lemma CandidateSupport(items: Itemset, data: Data, input: Input, k: nat)
    requires SupportsFit(data, input, k) && ToldApart(input.transactions) && |items| < k && IsCandidate(items, data)
    ensures data.support(items) == Support(input.transactions, items)
  {
  }

  // Without candidates of k items there are none of more.
  lemma {:induction false} SmallCandidate(items: Itemset, data: Data, k: nat)
    requires k >= 1 && CandidatesOf(map[], k, data) && IsCandidate(items, data)
    ensures |items| < k
    decreases |items|
  {
    hide CandidatesOf;
    if |items| == k {
      NoneListed(items, data, k);
    } else if |items| > k {
      var rest := Dropped(items, |items| - 1);
      assert Frequent(rest, data);
      FrequentIsCandidate(rest, data);
      SmallCandidate(rest, data, k);
      NoneListed(rest, data, k);
    }
  }

  lemma NoneListed(items: Itemset, data: Data, k: nat)
    requires CandidatesOf(map[], k, data) && |items| == k >= 1
    ensures !IsCandidate(items, data)
  {
    hide IsCandidate, Frequent;
    var p := items[..k - 1];
    assert ListsCandidates(ChildrenOf(map[], p), p, data) && IsParent(p, items);
  }
}
