// The candidate hash tree of Apriori: counting through the tree equals counting every transaction for every candidate.
module CandidateHashTrees {
  import opened Relations

  type Itemset = seq<nat>

  ghost predicate IsAscending(items: Itemset) {
    forall i, j :: 0 <= i < j < |items| ==> items[i] < items[j]
  }

  ghost predicate IsSorted(items: seq<nat>) {
    forall i, j :: 0 <= i < j < |items| ==> items[i] <= items[j]
  }

  // std::includes, for a sorted transaction and an ascending candidate.
  predicate Contains(transaction: seq<nat>, items: Itemset) {
    forall i :: 0 <= i < |items| ==> items[i] in transaction
  }

  // Transactions by their ids.
  type Transactions = map<nat, seq<nat>>

  // An id on its way from size_t to the int parameter tid, as two's complement conversion leaves it.
  function IntOf(tid: nat): (id: int)
    ensures tid < 0x8000_0000 ==> id == tid
    ensures -0x8000_0000 <= id < 0x8000_0000 && (tid - id) % 0x1_0000_0000 == 0
  {
    var low := tid % 0x1_0000_0000;
    if low < 0x8000_0000 then low else low - 0x1_0000_0000
  }

  // The id of a transaction with items differs from the ids of all others, and from the mark of an unvisited leaf.
  ghost predicate ToldApart(transactions: Transactions) {
    forall tid :: tid in transactions && transactions[tid] != [] ==>
      && IntOf(tid) != -1
      && forall other :: other in transactions && other != tid ==> IntOf(other) != IntOf(tid)
  }

  lemma SmallIdsToldApart(transactions: Transactions)
    requires forall tid :: tid in transactions ==> tid < 0x8000_0000
    ensures ToldApart(transactions)
  {
  }

  ghost function Supporting(transactions: Transactions, done: set<nat>, items: Itemset): set<nat> {
    set tid | tid in done && tid in transactions && Contains(transactions[tid], items)
  }

  datatype LeafRow = LeafRow(items: Itemset, parent: Itemset, transactionCount: nat)

  // Nodes own their children.
  datatype HashTreeNode = HashTreeNode(levelNumber: nat, lastVisited: int, children: seq<HashTreeNode>, candidates: seq<LeafRow>)

  ghost function RowsOf(node: HashTreeNode): set<LeafRow> {
    (set r | r in node.candidates) + set i, r | 0 <= i < |node.children| && r in RowsOf(node.children[i]) :: r
  }

  // The first items of a row hash to the branches of a path.
  ghost predicate Fits(items: Itemset, degree: nat, size: nat, path: seq<nat>)
    requires degree > 0
  {
    |items| == size && |path| <= size && forall i :: 0 <= i < |path| ==> items[i] % degree == path[i]
  }

  // Rows are where their items hash to, inner nodes have one child per branch and no rows of their own.
  ghost predicate WellPlaced(node: HashTreeNode, degree: nat, size: nat, path: seq<nat>)
    requires degree > 0
    decreases node
  {
    && node.levelNumber == |path| + 1
    && (forall r :: r in node.candidates ==> Fits(r.items, degree, size, path))
    && (node.children != [] ==> |node.children| == degree && node.candidates == [] && node.levelNumber <= size)
    && forall i :: 0 <= i < |node.children| ==> WellPlaced(node.children[i], degree, size, path + [i])
  }

  lemma {:induction false} RowsFit(node: HashTreeNode, degree: nat, size: nat, path: seq<nat>)
    requires degree > 0 && WellPlaced(node, degree, size, path)
    ensures forall r :: r in RowsOf(node) ==> Fits(r.items, degree, size, path)
    decreases node
  {
    forall i, r | 0 <= i < |node.children| && r in RowsOf(node.children[i]) ensures Fits(r.items, degree, size, path) {
      RowsFit(node.children[i], degree, size, path + [i]);
      FitsShorter(r.items, degree, size, path, i);
    }
  }

  lemma FitsShorter(items: Itemset, degree: nat, size: nat, path: seq<nat>, branch: nat)
    requires degree > 0
    ensures Fits(items, degree, size, path + [branch]) <==>
      Fits(items, degree, size, path) && |path| < size && items[|path|] % degree == branch
  {
    var longer := path + [branch];
    if Fits(items, degree, size, longer) {
      forall i | 0 <= i < |path| ensures items[i] % degree == path[i] {
        assert longer[i] == path[i];
      }
      assert longer[|path|] == branch;
    }
  }

  ghost function ChildrenRows(node: HashTreeNode, except: int): set<LeafRow> {
    set i, r | 0 <= i < |node.children| && i != except && r in RowsOf(node.children[i]) :: r
  }

  // Replacing one child.
  lemma RowsWithChild(node: HashTreeNode, branch: nat, child: HashTreeNode)
    requires branch < |node.children|
    ensures RowsOf(node.(children := node.children[branch := child])) ==
      (set r | r in node.candidates) + ChildrenRows(node, branch) + RowsOf(child)
  {
    var changed := node.(children := node.children[branch := child]);
    SplitRows(changed, branch);
    assert changed.children[branch] == child;
    forall r ensures r in ChildrenRows(changed, branch) <==> r in ChildrenRows(node, branch) {
      if r in ChildrenRows(changed, branch) {
        var i :| 0 <= i < |node.children| && i != branch && r in RowsOf(changed.children[i]);
        assert changed.children[i] == node.children[i];
      }
      if r in ChildrenRows(node, branch) {
        var i :| 0 <= i < |node.children| && i != branch && r in RowsOf(node.children[i]);
        assert changed.children[i] == node.children[i];
      }
    }
  }

  lemma SplitRows(node: HashTreeNode, branch: nat)
    requires branch < |node.children|
    ensures RowsOf(node) == (set r | r in node.candidates) + ChildrenRows(node, branch) + RowsOf(node.children[branch])
  {
    forall r | r in RowsOf(node) && r !in node.candidates
      ensures r in ChildrenRows(node, branch) || r in RowsOf(node.children[branch])
    {
      var i :| 0 <= i < |node.children| && r in RowsOf(node.children[i]);
    }
  }

  // Leaves are marked with ids of counted transactions only.
  ghost predicate MarkedIn(node: HashTreeNode, done: set<nat>) {
    && (node.lastVisited == -1 || exists tid :: tid in done && node.lastVisited == IntOf(tid))
    && forall i :: 0 <= i < |node.children| ==> MarkedIn(node.children[i], done)
  }

  lemma PlacedWithChild(node: HashTreeNode, degree: nat, size: nat, path: seq<nat>, branch: nat, child: HashTreeNode)
    requires degree > 0 && WellPlaced(node, degree, size, path) && branch < |node.children|
    requires WellPlaced(child, degree, size, path + [branch])
    ensures WellPlaced(node.(children := node.children[branch := child]), degree, size, path)
  {
  }

  function ItemHash(itemId: nat, degree: nat): (branch: nat)
    requires degree > 0
    ensures branch < degree
  {
    itemId % degree
  }

  // ----- building the tree -----

  method AppendRow(row: LeafRow, node: HashTreeNode, degree: nat, threshold: nat, ghost size: nat, ghost path: seq<nat>)
    returns (grown: HashTreeNode)
    requires degree > 0 && WellPlaced(node, degree, size, path) && Fits(row.items, degree, size, path) && MarkedIn(node, {})
    ensures WellPlaced(grown, degree, size, path) && RowsOf(grown) == RowsOf(node) + {row} && MarkedIn(grown, {})
    ensures node.children != [] ==> grown.children != []
    decreases size + 1 - |path|, if node.children == [] then 2 else 0
  {
    hide Fits;
    assert |row.items| == size && |path| <= size by {
      FitsSizes(row.items, degree, size, path);
    }
    if node.children != [] {
      var hash := ItemHash(row.items[node.levelNumber - 1], degree);
      FitsShorter(row.items, degree, size, path, hash);
      var child := AppendRow(row, node.children[hash], degree, threshold, size, path + [hash]);
      RowsWithChild(node, hash, child);
      SplitRows(node, hash);
      PlacedWithChild(node, degree, size, path, hash, child);
      grown := node.(children := node.children[hash := child]);
    } else {
      grown := node.(candidates := node.candidates + [row]);
      if |grown.candidates| > threshold && grown.levelNumber <= |row.items| {
        grown := AddLevel(grown, degree, threshold, size, path);
      }
    }
  }

  lemma FitsSizes(items: Itemset, degree: nat, size: nat, path: seq<nat>)
    requires degree > 0 && Fits(items, degree, size, path)
    ensures |items| == size && |path| <= size
  {
  }

  // A leaf becomes an inner node, and its rows move to the new leaves.
  method AddLevel(leaf: HashTreeNode, degree: nat, threshold: nat, ghost size: nat, ghost path: seq<nat>) returns (node: HashTreeNode)
    requires degree > 0 && leaf.children == [] && WellPlaced(leaf, degree, size, path) && leaf.levelNumber <= size && MarkedIn(leaf, {})
    ensures WellPlaced(node, degree, size, path) && RowsOf(node) == RowsOf(leaf) && MarkedIn(node, {})
    decreases size + 1 - |path|, 1
  {
    hide Fits, RowsOf, WellPlaced;
    var children := seq(degree, _ => HashTreeNode(leaf.levelNumber + 1, -1, [], []));
    node := leaf.(children := children, candidates := []);
    NewLevel(leaf, node, degree, size, path);
    var i := 0;
    while i < |leaf.candidates|
      invariant 0 <= i <= |leaf.candidates| && node.children != []
      invariant WellPlaced(node, degree, size, path) && RowsOf(node) == (set r | r in leaf.candidates[..i]) && MarkedIn(node, {})
    {
      LeafRowFits(leaf, degree, size, path, i);
      assert leaf.candidates[..i + 1] == leaf.candidates[..i] + [leaf.candidates[i]];
      node := AppendRow(leaf.candidates[i], node, degree, threshold, size, path);
      i := i + 1;
    }
    assert leaf.candidates[..i] == leaf.candidates;
    LeafRows(leaf);
  }

  lemma LeafRows(leaf: HashTreeNode)
    requires leaf.children == []
    ensures RowsOf(leaf) == set r | r in leaf.candidates
  {
  }

  lemma LeafRowFits(leaf: HashTreeNode, degree: nat, size: nat, path: seq<nat>, i: nat)
    requires degree > 0 && WellPlaced(leaf, degree, size, path) && i < |leaf.candidates|
    ensures Fits(leaf.candidates[i].items, degree, size, path)
  {
  }

  lemma NewLevel(leaf: HashTreeNode, node: HashTreeNode, degree: nat, size: nat, path: seq<nat>)
    requires degree > 0 && WellPlaced(leaf, degree, size, path) && leaf.levelNumber <= size
    requires node == leaf.(children := node.children, candidates := [])
    requires |node.children| == degree
    requires forall i :: 0 <= i < degree ==> node.children[i] == HashTreeNode(leaf.levelNumber + 1, -1, [], [])
    ensures WellPlaced(node, degree, size, path) && RowsOf(node) == {} && (leaf.lastVisited == -1 ==> MarkedIn(node, {}))
  {
    forall i | 0 <= i < degree
      ensures WellPlaced(node.children[i], degree, size, path + [i]) && RowsOf(node.children[i]) == {} && MarkedIn(node.children[i], {})
    {
    }
  }

  // ----- counting one transaction -----

  function Counted(row: LeafRow, transaction: seq<nat>): LeafRow {
    if Contains(transaction, row.items) then row.(transactionCount := row.transactionCount + 1) else row
  }

  // cur is old with some leaves counted for a transaction and marked with its id; leaves that carry the id already stay.
  ghost predicate IsProgress(old_: HashTreeNode, cur: HashTreeNode, transaction: seq<nat>, tid: int)
    decreases old_
  {
    && old_.levelNumber == cur.levelNumber
    && |old_.children| == |cur.children| && |old_.candidates| == |cur.candidates|
    && (forall i :: 0 <= i < |old_.children| ==> IsProgress(old_.children[i], cur.children[i], transaction, tid))
    && (forall k :: 0 <= k < |old_.candidates| ==>
          cur.candidates[k] ==
            if old_.lastVisited != tid && cur.lastVisited == tid then Counted(old_.candidates[k], transaction) else old_.candidates[k])
    && (cur.lastVisited == tid || cur.lastVisited == old_.lastVisited)
    && (old_.children != [] ==> cur.lastVisited == old_.lastVisited)
  }

  // No leaf is marked with the id.
  ghost predicate NotVisited(node: HashTreeNode, tid: int) {
    node.lastVisited != tid && forall i :: 0 <= i < |node.children| ==> NotVisited(node.children[i], tid)
  }

  lemma {:induction false} ProgressStart(node: HashTreeNode, transaction: seq<nat>, tid: int)
    ensures IsProgress(node, node, transaction, tid)
    decreases node
  {
    forall i | 0 <= i < |node.children| ensures IsProgress(node.children[i], node.children[i], transaction, tid) {
      ProgressStart(node.children[i], transaction, tid);
    }
  }

  lemma {:induction false} ProgressPlaced(old_: HashTreeNode, cur: HashTreeNode, transaction: seq<nat>, tid: int,
                                          degree: nat, size: nat, path: seq<nat>)
    requires degree > 0 && IsProgress(old_, cur, transaction, tid) && WellPlaced(old_, degree, size, path)
    ensures WellPlaced(cur, degree, size, path)
    decreases old_
  {
    forall i | 0 <= i < |cur.children| ensures WellPlaced(cur.children[i], degree, size, path + [i]) {
      ProgressPlaced(old_.children[i], cur.children[i], transaction, tid, degree, size, path + [i]);
    }
    forall r | r in cur.candidates ensures Fits(r.items, degree, size, path) {
      var k :| 0 <= k < |cur.candidates| && cur.candidates[k] == r;
      assert old_.candidates[k] in old_.candidates;
    }
  }

  // Rows of leaves that are not marked.
  ghost function Unvisited(node: HashTreeNode, tid: int): set<LeafRow> {
    (set r | r in node.candidates && node.lastVisited != tid)
      + set i, r | 0 <= i < |node.children| && r in Unvisited(node.children[i], tid) :: r
  }

  ghost predicate InOtherBranch(node: HashTreeNode, branch: nat, row: LeafRow, tid: int) {
    exists i :: 0 <= i < |node.children| && i != branch && row in Unvisited(node.children[i], tid)
  }

  lemma UnvisitedWithChild(node: HashTreeNode, branch: nat, child: HashTreeNode, tid: int)
    requires branch < |node.children| && Unvisited(child, tid) <= Unvisited(node.children[branch], tid)
    ensures Unvisited(node.(children := node.children[branch := child]), tid) <= Unvisited(node, tid)
    ensures forall r :: r in Unvisited(node.(children := node.children[branch := child]), tid) ==>
      r in Unvisited(child, tid) || r in node.candidates || InOtherBranch(node, branch, r, tid)
  {
    var changed := node.(children := node.children[branch := child]);
    forall r | r in Unvisited(changed, tid)
      ensures r in Unvisited(node, tid)
      ensures r in Unvisited(child, tid) || r in node.candidates || InOtherBranch(node, branch, r, tid)
    {
      if !(r in node.candidates && node.lastVisited != tid) {
        var i :| 0 <= i < |changed.children| && r in Unvisited(changed.children[i], tid);
        if i != branch {
          assert r in Unvisited(node.children[i], tid);
        } else {
          assert r in Unvisited(node.children[branch], tid);
        }
      }
    }
  }

  lemma {:induction false} UnvisitedFit(node: HashTreeNode, tid: int)
    ensures Unvisited(node, tid) <= RowsOf(node)
    decreases node
  {
    forall i, r | 0 <= i < |node.children| && r in Unvisited(node.children[i], tid) ensures r in RowsOf(node) {
      UnvisitedFit(node.children[i], tid);
    }
  }

  // Only the rows with a given item at a depth can be missed no longer.
  ghost predicate NoneLeft(rows: set<LeafRow>, transaction: seq<nat>, depth: nat, item: nat) {
    forall r :: r in rows ==> !(depth < |r.items| && r.items[depth] == item && Contains(transaction, r.items))
  }

  // A leaf is counted unless it carries the id.
  function Visited(leaf: HashTreeNode, transaction: seq<nat>, tid: int): HashTreeNode {
    if leaf.lastVisited == tid then leaf else
      leaf.(lastVisited := tid,
            candidates := seq(|leaf.candidates|, k requires 0 <= k < |leaf.candidates| => Counted(leaf.candidates[k], transaction)))
  }

  method VisitLeaf(leaf: HashTreeNode, transaction: seq<nat>, tid: int, ghost old_: HashTreeNode) returns (visited: HashTreeNode)
    requires leaf.children == [] && IsProgress(old_, leaf, transaction, tid)
    ensures visited == Visited(leaf, transaction, tid)
    ensures IsProgress(old_, visited, transaction, tid) && Unvisited(visited, tid) == {}
  {
    if leaf.lastVisited == tid {
      return leaf;
    }
    var rows: seq<LeafRow> := [];
    while |rows| < |leaf.candidates|
      invariant |rows| <= |leaf.candidates|
      invariant forall k :: 0 <= k < |rows| ==> rows[k] == Counted(leaf.candidates[k], transaction)
    {
      rows := rows + [Counted(leaf.candidates[|rows|], transaction)];
    }
    visited := leaf.(lastVisited := tid, candidates := rows);
  }

  // Follows the items of a transaction from one start position.
  method FindAndVisitLeaves(node: HashTreeNode, start: nat, transaction: seq<nat>, tid: int, degree: nat,
                            ghost old_: HashTreeNode, ghost size: nat, ghost path: seq<nat>)
    returns (visited: HashTreeNode)
    requires degree > 0 && node.children != [] && start < |transaction| && IsSorted(transaction)
    requires WellPlaced(old_, degree, size, path) && IsProgress(old_, node, transaction, tid)
    requires forall r :: r in RowsOf(node) ==> IsAscending(r.items)
    ensures IsProgress(old_, visited, transaction, tid) && Unvisited(visited, tid) <= Unvisited(node, tid)
    ensures visited.children != [] && RowItems(visited) == RowItems(node)
    ensures NoneLeft(Unvisited(visited, tid), transaction, |path|, transaction[start])
    decreases |transaction| - start
  {
    hide IsProgress, WellPlaced, RowsOf, Unvisited, RowItems, NoneLeft, IsAscending;
    ProgressPlaced(old_, node, transaction, tid, degree, size, path);
    ProgressShape(old_, node, transaction, tid);
    PlacedShape(old_, degree, size, path);
    var branch := ItemHash(transaction[start], degree);
    ChildPlaced(old_, degree, size, path, branch);
    ChildProgress(old_, node, transaction, tid, branch);
    ChildAscending(node, branch);
    var next := node.children[branch];
    ghost var oldNext := old_.children[branch];
    if next.children == [] {
      next := VisitLeaf(next, transaction, tid, oldNext);
      ProgressItems(oldNext, node.children[branch], transaction, tid);
      ProgressItems(oldNext, next, transaction, tid);
      NothingLeft(transaction, |path|, transaction[start]);
      EmptyInside(Unvisited(node.children[branch], tid));
    } else {
      next := VisitFrom(next, start, transaction, tid, degree, oldNext, size, path + [branch]);
    }
    ProgressWithChild(old_, node, transaction, tid, branch, next);
    UnvisitedWithChild(node, branch, next, tid);
    ItemsWithChild(node, branch, next);
    visited := node.(children := node.children[branch := next]);
    OtherBranchesFit(node, branch, next, transaction, start, tid, degree, size, path);
  }

  // The positions after the start, one by one.
  method VisitFrom(node: HashTreeNode, start: nat, transaction: seq<nat>, tid: int, degree: nat,
                   ghost old_: HashTreeNode, ghost size: nat, ghost path: seq<nat>)
    returns (visited: HashTreeNode)
    requires degree > 0 && node.children != [] && start < |transaction| && IsSorted(transaction) && path != []
    requires WellPlaced(old_, degree, size, path) && IsProgress(old_, node, transaction, tid)
    requires forall r :: r in RowsOf(node) ==> IsAscending(r.items)
    ensures IsProgress(old_, visited, transaction, tid) && Unvisited(visited, tid) <= Unvisited(node, tid)
    ensures RowItems(visited) == RowItems(node)
    ensures NoneLeft(Unvisited(visited, tid), transaction, |path| - 1, transaction[start])
    decreases |transaction| - start, 0
  {
    hide IsProgress, WellPlaced, RowsOf, Unvisited, RowItems, NoneLeft, IsAscending, IsSorted;
    visited := node;
    ghost var left := Unvisited(node, tid);
    var newStart := start + 1;
    while newStart < |transaction|
      invariant start + 1 <= newStart <= |transaction| && visited.children != []
      invariant IsProgress(old_, visited, transaction, tid) && Unvisited(visited, tid) <= left
      invariant RowItems(visited) == RowItems(node)
      invariant forall s :: start < s < newStart ==> NoneLeft(Unvisited(visited, tid), transaction, |path|, transaction[s])
    {
      AscendingByItems(node, visited);
      ghost var before := Unvisited(visited, tid);
      visited := FindAndVisitLeaves(visited, newStart, transaction, tid, degree, old_, size, path);
      forall s | start < s < newStart ensures NoneLeft(Unvisited(visited, tid), transaction, |path|, transaction[s]) {
        NoneLeftFewer(before, Unvisited(visited, tid), transaction, |path|, transaction[s]);
      }
      newStart := newStart + 1;
    }
    AscendingByItems(node, visited);
    ProgressPlaced(old_, visited, transaction, tid, degree, size, path);
    AllFollowed(visited, start, transaction, tid, degree, size, path);
  }

  // The itemsets of the rows.
  ghost function RowItems(node: HashTreeNode): set<(Itemset, Itemset)> {
    set r | r in RowsOf(node) :: (r.items, r.parent)
  }

  lemma AscendingByItems(node: HashTreeNode, visited: HashTreeNode)
    requires RowItems(visited) == RowItems(node) && forall r :: r in RowsOf(node) ==> IsAscending(r.items)
    ensures forall r :: r in RowsOf(visited) ==> IsAscending(r.items)
  {
    hide RowsOf;
    forall r | r in RowsOf(visited) ensures IsAscending(r.items) {
      assert (r.items, r.parent) in RowItems(visited);
    }
  }

  lemma ProgressShape(old_: HashTreeNode, cur: HashTreeNode, transaction: seq<nat>, tid: int)
    requires IsProgress(old_, cur, transaction, tid)
    ensures |old_.children| == |cur.children|
  {
  }

  lemma PlacedShape(node: HashTreeNode, degree: nat, size: nat, path: seq<nat>)
    requires degree > 0 && WellPlaced(node, degree, size, path) && node.children != []
    ensures |node.children| == degree && node.candidates == [] && |path| < size
  {
  }

  lemma ChildPlaced(node: HashTreeNode, degree: nat, size: nat, path: seq<nat>, branch: nat)
    requires degree > 0 && WellPlaced(node, degree, size, path) && branch < |node.children|
    ensures WellPlaced(node.children[branch], degree, size, path + [branch])
  {
  }

  lemma ChildProgress(old_: HashTreeNode, cur: HashTreeNode, transaction: seq<nat>, tid: int, branch: nat)
    requires IsProgress(old_, cur, transaction, tid) && branch < |old_.children| == |cur.children|
    ensures IsProgress(old_.children[branch], cur.children[branch], transaction, tid)
  {
  }

  lemma ChildAscending(node: HashTreeNode, branch: nat)
    requires branch < |node.children| && forall r :: r in RowsOf(node) ==> IsAscending(r.items)
    ensures forall r :: r in RowsOf(node.children[branch]) ==> IsAscending(r.items)
  {
    SplitRows(node, branch);
  }

  lemma ProgressWithChild(old_: HashTreeNode, cur: HashTreeNode, transaction: seq<nat>, tid: int, branch: nat, child: HashTreeNode)
    requires IsProgress(old_, cur, transaction, tid) && branch < |old_.children| == |cur.children|
    requires IsProgress(old_.children[branch], child, transaction, tid)
    ensures IsProgress(old_, cur.(children := cur.children[branch := child]), transaction, tid)
  {
  }

  lemma ItemsWithChild(node: HashTreeNode, branch: nat, child: HashTreeNode)
    requires branch < |node.children| && RowItems(child) == RowItems(node.children[branch])
    ensures RowItems(node.(children := node.children[branch := child])) == RowItems(node)
  {
    var changed := node.(children := node.children[branch := child]);
    RowsWithChild(node, branch, child);
    SplitRows(node, branch);
    hide RowsOf;
    forall r | r in RowsOf(child) ensures (r.items, r.parent) in RowItems(node) {
      assert (r.items, r.parent) in RowItems(child);
      var s :| s in RowsOf(node.children[branch]) && (s.items, s.parent) == (r.items, r.parent);
      assert s in RowsOf(node);
    }
    forall r | r in RowsOf(node.children[branch]) ensures (r.items, r.parent) in RowItems(changed) {
      assert (r.items, r.parent) in RowItems(node.children[branch]);
      var s :| s in RowsOf(child) && (s.items, s.parent) == (r.items, r.parent);
      assert s in RowsOf(changed);
    }
  }

  // Counting changes no itemset.
  lemma {:induction false} ProgressItems(old_: HashTreeNode, cur: HashTreeNode, transaction: seq<nat>, tid: int)
    requires IsProgress(old_, cur, transaction, tid)
    ensures RowItems(cur) == RowItems(old_)
    decreases old_
  {
    forall p | p in RowItems(cur) ensures p in RowItems(old_) {
      var r :| r in RowsOf(cur) && p == (r.items, r.parent);
      if k :| 0 <= k < |cur.candidates| && cur.candidates[k] == r {
        assert old_.candidates[k] in RowsOf(old_);
      } else {
        var i :| 0 <= i < |cur.children| && r in RowsOf(cur.children[i]);
        ProgressItems(old_.children[i], cur.children[i], transaction, tid);
        assert p in RowItems(cur.children[i]);
        var s :| s in RowsOf(old_.children[i]) && p == (s.items, s.parent);
        assert s in RowsOf(old_);
      }
    }
    forall p | p in RowItems(old_) ensures p in RowItems(cur) {
      var r :| r in RowsOf(old_) && p == (r.items, r.parent);
      if k :| 0 <= k < |old_.candidates| && old_.candidates[k] == r {
        assert cur.candidates[k] in RowsOf(cur);
      } else {
        var i :| 0 <= i < |old_.children| && r in RowsOf(old_.children[i]);
        ProgressItems(old_.children[i], cur.children[i], transaction, tid);
        assert p in RowItems(old_.children[i]);
        var s :| s in RowsOf(cur.children[i]) && p == (s.items, s.parent);
        assert s in RowsOf(cur);
      }
    }
  }

  lemma NothingLeft(transaction: seq<nat>, depth: nat, item: nat)
    ensures NoneLeft({}, transaction, depth, item)
  {
  }

  lemma EmptyInside(rows: set<LeafRow>)
    ensures {} <= rows
  {
  }

  lemma NoneLeftFewer(rows: set<LeafRow>, fewer: set<LeafRow>, transaction: seq<nat>, depth: nat, item: nat)
    requires NoneLeft(rows, transaction, depth, item) && fewer <= rows
    ensures NoneLeft(fewer, transaction, depth, item)
  {
  }

  // Rows with the item at the depth of the node are below the branch of the item.
  lemma OtherBranchesFit(node: HashTreeNode, branch: nat, child: HashTreeNode, transaction: seq<nat>, start: nat, tid: int,
                         degree: nat, size: nat, path: seq<nat>)
    requires degree > 0 && start < |transaction| && branch < |node.children| && branch == transaction[start] % degree
    requires WellPlaced(node, degree, size, path) && Unvisited(child, tid) <= Unvisited(node.children[branch], tid)
    requires NoneLeft(Unvisited(child, tid), transaction, |path|, transaction[start])
    ensures NoneLeft(Unvisited(node.(children := node.children[branch := child]), tid), transaction, |path|, transaction[start])
  {
    hide WellPlaced, RowsOf, Unvisited, Contains, Fits;
    var changed := node.(children := node.children[branch := child]);
    UnvisitedWithChild(node, branch, child, tid);
    PlacedShape(node, degree, size, path);
    forall r | r in Unvisited(changed, tid) && r !in Unvisited(child, tid)
      ensures !(|path| < |r.items| && r.items[|path|] == transaction[start])
    {
      var i :| 0 <= i < |node.children| && i != branch && r in Unvisited(node.children[i], tid);
      UnvisitedFit(node.children[i], tid);
      ChildPlaced(node, degree, size, path, i);
      RowsFit(node.children[i], degree, size, path + [i]);
      FitsShorter(r.items, degree, size, path, i);
    }
  }

  // A contained row with the start item at the depth above has its next item behind the start.
  lemma AllFollowed(node: HashTreeNode, start: nat, transaction: seq<nat>, tid: int, degree: nat, size: nat, path: seq<nat>)
    requires degree > 0 && path != [] && start < |transaction| && IsSorted(transaction) && node.children != []
    requires WellPlaced(node, degree, size, path) && forall r :: r in RowsOf(node) ==> IsAscending(r.items)
    requires forall s :: start < s < |transaction| ==> NoneLeft(Unvisited(node, tid), transaction, |path|, transaction[s])
    ensures NoneLeft(Unvisited(node, tid), transaction, |path| - 1, transaction[start])
  {
    hide WellPlaced, RowsOf, Unvisited, Fits;
    UnvisitedFit(node, tid);
    RowsFit(node, degree, size, path);
    PlacedShape(node, degree, size, path);
    forall r | r in Unvisited(node, tid)
      ensures !(|path| - 1 < |r.items| && r.items[|path| - 1] == transaction[start] && Contains(transaction, r.items))
    {
      FitsSizes(r.items, degree, size, path);
      if r.items[|path| - 1] == transaction[start] && r.items[|path|] in transaction {
        var s :| 0 <= s < |transaction| && transaction[s] == r.items[|path|];
        assert r.items[|path| - 1] < r.items[|path|];
        assert start < s;
        assert NoneLeft(Unvisited(node, tid), transaction, |path|, transaction[s]);
      }
    }
  }

  // ----- counting all transactions -----

  // When no contained row is left in unmarked leaves, every row has been counted.
  lemma {:induction false} ProgressEnds(old_: HashTreeNode, cur: HashTreeNode, transaction: seq<nat>, tid: int)
    requires IsProgress(old_, cur, transaction, tid) && NotVisited(old_, tid)
    requires forall r :: r in Unvisited(cur, tid) ==> !Contains(transaction, r.items)
    ensures RowsOf(cur) == set r | r in RowsOf(old_) :: Counted(r, transaction)
    decreases old_
  {
    hide Contains;
    forall k | 0 <= k < |cur.candidates| ensures cur.candidates[k] == Counted(old_.candidates[k], transaction) {
      assert cur.lastVisited != tid ==> cur.candidates[k] in Unvisited(cur, tid);
    }
    forall i | 0 <= i < |cur.children|
      ensures RowsOf(cur.children[i]) == set r | r in RowsOf(old_.children[i]) :: Counted(r, transaction)
    {
      assert forall r :: r in Unvisited(cur.children[i], tid) ==> r in Unvisited(cur, tid);
      ProgressEnds(old_.children[i], cur.children[i], transaction, tid);
    }
    RowsOfBoth(old_, cur, transaction);
  }

  lemma RowsOfBoth(old_: HashTreeNode, cur: HashTreeNode, transaction: seq<nat>)
    requires |old_.candidates| == |cur.candidates| && |old_.children| == |cur.children|
    requires forall k :: 0 <= k < |cur.candidates| ==> cur.candidates[k] == Counted(old_.candidates[k], transaction)
    requires forall i :: 0 <= i < |cur.children| ==>
      RowsOf(cur.children[i]) == set r | r in RowsOf(old_.children[i]) :: Counted(r, transaction)
    ensures RowsOf(cur) == set r | r in RowsOf(old_) :: Counted(r, transaction)
  {
    hide Counted, RowsOf;
    var counted := set r | r in RowsOf(old_) :: Counted(r, transaction);
    forall r | r in RowsOf(cur) ensures r in counted {
      RowIsSomewhere(cur, r);
      if k :| 0 <= k < |cur.candidates| && cur.candidates[k] == r {
        RowIsThere(old_, k);
      } else {
        var i :| 0 <= i < |cur.children| && r in RowsOf(cur.children[i]);
        var s :| s in RowsOf(old_.children[i]) && r == Counted(s, transaction);
        ChildRowIsThere(old_, i);
      }
    }
    forall s | s in RowsOf(old_) ensures Counted(s, transaction) in RowsOf(cur) {
      RowIsSomewhere(old_, s);
      if k :| 0 <= k < |old_.candidates| && old_.candidates[k] == s {
        RowIsThere(cur, k);
      } else {
        var i :| 0 <= i < |old_.children| && s in RowsOf(old_.children[i]);
        ChildRowIsThere(cur, i);
        assert Counted(s, transaction) in RowsOf(cur.children[i]);
      }
    }
  }

  lemma RowIsSomewhere(node: HashTreeNode, row: LeafRow)
    requires row in RowsOf(node)
    ensures (exists k :: 0 <= k < |node.candidates| && node.candidates[k] == row)
      || exists i :: 0 <= i < |node.children| && row in RowsOf(node.children[i])
  {
  }

  lemma RowIsThere(node: HashTreeNode, k: nat)
    requires k < |node.candidates|
    ensures node.candidates[k] in RowsOf(node)
  {
  }

  lemma ChildRowIsThere(node: HashTreeNode, i: nat)
    requires i < |node.children|
    ensures RowsOf(node.children[i]) <= RowsOf(node)
  {
  }

  lemma {:induction false} ProgressMarks(old_: HashTreeNode, cur: HashTreeNode, transaction: seq<nat>, tid: nat, done: set<nat>)
    requires IsProgress(old_, cur, transaction, IntOf(tid)) && MarkedIn(old_, done)
    ensures MarkedIn(cur, done + {tid})
    decreases old_
  {
    forall i | 0 <= i < |cur.children| ensures MarkedIn(cur.children[i], done + {tid}) {
      ProgressMarks(old_.children[i], cur.children[i], transaction, tid, done);
    }
    if cur.lastVisited != -1 {
      var id := if cur.lastVisited == IntOf(tid) then tid else (var id :| id in done && cur.lastVisited == IntOf(id); id);
      assert id in done + {tid} && cur.lastVisited == IntOf(id);
    }
  }

  lemma {:induction false} UnmarkedIsNotVisited(node: HashTreeNode, transactions: Transactions, done: set<nat>, tid: nat)
    requires MarkedIn(node, done) && done <= transactions.Keys && tid in transactions && tid !in done
    requires ToldApart(transactions) && transactions[tid] != []
    ensures NotVisited(node, IntOf(tid))
    decreases node
  {
    hide IntOf;
    forall i | 0 <= i < |node.children| ensures NotVisited(node.children[i], IntOf(tid)) {
      UnmarkedIsNotVisited(node.children[i], transactions, done, tid);
    }
  }

  // A transaction without items is contained in nothing, so that it does not matter whether leaves are skipped for it.
  lemma {:induction false} NothingToCount(old_: HashTreeNode, cur: HashTreeNode, tid: int, degree: nat, size: nat, path: seq<nat>)
    requires degree > 0 && size > 0 && IsProgress(old_, cur, [], tid) && WellPlaced(old_, degree, size, path)
    ensures RowsOf(cur) == RowsOf(old_) == set r | r in RowsOf(old_) :: Counted(r, [])
    decreases old_
  {
    forall k | 0 <= k < |cur.candidates| ensures cur.candidates[k] == old_.candidates[k] == Counted(old_.candidates[k], []) {
      assert Fits(old_.candidates[k].items, degree, size, path);
      NothingInside(old_.candidates[k].items);
    }
    forall i | 0 <= i < |cur.children|
      ensures RowsOf(cur.children[i]) == set r | r in RowsOf(old_.children[i]) :: Counted(r, [])
    {
      NothingToCount(old_.children[i], cur.children[i], tid, degree, size, path + [i]);
    }
    RowsOfBoth(old_, cur, []);
    RowsFit(old_, degree, size, path);
    forall r | r in RowsOf(old_) ensures Counted(r, []) == r {
      NothingInside(r.items);
    }
  }

  lemma NothingInside(items: Itemset)
    ensures Contains([], items) <==> items == []
  {
    assert items != [] ==> items[0] !in [];
  }

  // What becomes of a tree that is a single leaf: one visit per transaction, in the order of the iteration.
  function LeafAfter(leaf: HashTreeNode, order: seq<nat>, transactions: Transactions): HashTreeNode
    requires forall tid :: tid in order ==> tid in transactions
  {
    if order == [] then leaf else
      var last := order[|order| - 1];
      Visited(LeafAfter(leaf, order[..|order| - 1], transactions), transactions[last], IntOf(last))
  }

  lemma LeafAfterNothing(leaf: HashTreeNode, transactions: Transactions)
    ensures LeafAfter(leaf, [], transactions) == leaf
  {
  }

  lemma LeafAfterNext(leaf: HashTreeNode, order: seq<nat>, transactions: Transactions, tid: nat)
    requires forall id :: id in order ==> id in transactions
    requires tid in transactions
    ensures LeafAfter(leaf, order + [tid], transactions)
      == Visited(LeafAfter(leaf, order, transactions), transactions[tid], IntOf(tid))
  {
    assert (order + [tid])[..|order|] == order;
  }

  // Every transaction once, in any order, as a hash map is iterated.
  ghost predicate IsOrder(order: seq<nat>, ids: set<nat>) {
    NoDuplicates(order) && forall tid :: tid in order <==> tid in ids
  }

  // Every row has been counted for the transactions done.
  ghost predicate HasCounts(rows: set<LeafRow>, transactions: Transactions, done: set<nat>) {
    forall r :: r in rows ==> r.transactionCount == |Supporting(transactions, done, r.items)|
  }

  // Each itemset has one row.
  ghost predicate OneRowEach(rows: set<LeafRow>) {
    forall r, s :: r in rows && s in rows && r.items == s.items ==> r == s
  }

  // No row counts more transactions than contain it.
  ghost predicate CountsAtMost(rows: set<LeafRow>, transactions: Transactions, done: set<nat>) {
    forall r :: r in rows ==> r.transactionCount <= |Supporting(transactions, done, r.items)|
  }

  ghost predicate StemsFrom(row: LeafRow, rows: set<LeafRow>, transaction: seq<nat>) {
    exists s :: s in rows && (row == s || row == Counted(s, transaction))
  }

  // Whatever leaves are visited, a row is counted or not, and rows of one itemset are treated alike.
  lemma {:induction false} ProgressRows(old_: HashTreeNode, cur: HashTreeNode, transaction: seq<nat>, tid: int,
                                        degree: nat, size: nat, path: seq<nat>)
    requires degree > 0 && IsProgress(old_, cur, transaction, tid) && WellPlaced(old_, degree, size, path)
    ensures forall r :: r in RowsOf(cur) ==> StemsFrom(r, RowsOf(old_), transaction)
    ensures OneRowEach(RowsOf(old_)) ==> OneRowEach(RowsOf(cur))
    decreases old_
  {
    hide Counted, RowsOf, Fits;
    forall r | r in RowsOf(cur) ensures StemsFrom(r, RowsOf(old_), transaction) {
      RowIsSomewhere(cur, r);
      if k :| 0 <= k < |cur.candidates| && cur.candidates[k] == r {
        RowIsThere(old_, k);
      } else {
        var i :| 0 <= i < |cur.children| && r in RowsOf(cur.children[i]);
        ProgressRows(old_.children[i], cur.children[i], transaction, tid, degree, size, path + [i]);
        ChildRowIsThere(old_, i);
        var s :| s in RowsOf(old_.children[i]) && (r == s || r == Counted(s, transaction));
      }
    }
    if OneRowEach(RowsOf(old_)) {
      forall r, s | r in RowsOf(cur) && s in RowsOf(cur) && r.items == s.items ensures r == s {
        SameRow(old_, cur, transaction, tid, degree, size, path, r, s);
      }
    }
  }

  lemma SameRow(old_: HashTreeNode, cur: HashTreeNode, transaction: seq<nat>, tid: int, degree: nat, size: nat, path: seq<nat>,
                r: LeafRow, s: LeafRow)
    requires degree > 0 && IsProgress(old_, cur, transaction, tid) && WellPlaced(old_, degree, size, path)
    requires OneRowEach(RowsOf(old_)) && r in RowsOf(cur) && s in RowsOf(cur) && r.items == s.items
    ensures r == s
    decreases old_, 0
  {
    hide RowsOf, Fits;
    RowIsSomewhere(cur, r);
    RowIsSomewhere(cur, s);
    if old_.children == [] {
      var k :| 0 <= k < |cur.candidates| && cur.candidates[k] == r;
      var l :| 0 <= l < |cur.candidates| && cur.candidates[l] == s;
      RowIsThere(old_, k);
      RowIsThere(old_, l);
      assert old_.candidates[k].items == r.items && old_.candidates[l].items == s.items;
    } else {
      var i :| 0 <= i < |cur.children| && r in RowsOf(cur.children[i]);
      var j :| 0 <= j < |cur.children| && s in RowsOf(cur.children[j]);
      SameBranch(old_, cur, transaction, tid, degree, size, path, i, r);
      SameBranch(old_, cur, transaction, tid, degree, size, path, j, s);
      ChildRowIsThere(old_, i);
      ProgressRows(old_.children[i], cur.children[i], transaction, tid, degree, size, path + [i]);
    }
  }

  lemma SameBranch(old_: HashTreeNode, cur: HashTreeNode, transaction: seq<nat>, tid: int, degree: nat, size: nat, path: seq<nat>,
                   i: nat, r: LeafRow)
    requires degree > 0 && IsProgress(old_, cur, transaction, tid) && WellPlaced(old_, degree, size, path)
    requires i < |cur.children| && r in RowsOf(cur.children[i])
    ensures |path| < |r.items| && r.items[|path|] % degree == i
  {
    hide RowsOf, Fits;
    ProgressPlaced(old_, cur, transaction, tid, degree, size, path);
    ChildPlaced(cur, degree, size, path, i);
    RowsFit(cur.children[i], degree, size, path + [i]);
    FitsShorter(r.items, degree, size, path, i);
    FitsSizes(r.items, degree, size, path);
  }

  lemma AtMostStep(before: set<LeafRow>, after: set<LeafRow>, transactions: Transactions, done: set<nat>, tid: nat)
    requires CountsAtMost(before, transactions, done) && tid in transactions && tid !in done
    requires forall r :: r in after ==> StemsFrom(r, before, transactions[tid])
    ensures CountsAtMost(after, transactions, done + {tid})
  {
    hide Contains;
    forall r | r in after ensures r.transactionCount <= |Supporting(transactions, done + {tid}, r.items)| {
      var s :| s in before && (r == s || r == Counted(s, transactions[tid]));
      var some, more := Supporting(transactions, done, r.items), Supporting(transactions, done + {tid}, r.items);
      assert more == if Contains(transactions[tid], r.items) then some + {tid} else some;
    }
  }

  lemma CountsStep(rows: set<LeafRow>, transactions: Transactions, done: set<nat>, tid: nat)
    requires HasCounts(rows, transactions, done) && tid in transactions && tid !in done
    ensures HasCounts(set r | r in rows :: Counted(r, transactions[tid]), transactions, done + {tid})
  {
    hide Contains;
    forall r | r in rows
      ensures Counted(r, transactions[tid]).transactionCount == |Supporting(transactions, done + {tid}, r.items)|
    {
      var before, after := Supporting(transactions, done, r.items), Supporting(transactions, done + {tid}, r.items);
      assert after == if Contains(transactions[tid], r.items) then before + {tid} else before;
    }
  }

  // ----- judging the candidates by their counts -----

  datatype Node = Node(items: Itemset, support: real)

  ghost function Support(transactions: Transactions, items: Itemset): real
    requires |transactions| > 0
  {
    |Supporting(transactions, transactions.Keys, items)| as real / |transactions| as real
  }

  function Without(list: seq<Node>, items: Itemset): seq<Node> {
    if list == [] then [] else
      var last := list[|list| - 1];
      Without(list[..|list| - 1], items) + if last.items == items then [] else [last]
  }

  function WithSupport(list: seq<Node>, items: Itemset, support: real): seq<Node> {
    if list == [] then [] else
      var last := list[|list| - 1];
      WithSupport(list[..|list| - 1], items, support) + [if last.items == items then last.(support := support) else last]
  }

  // What becomes of a candidate once its row has been looked at.
  ghost function Judge(node: Node, done: set<Itemset>, supports: Itemset -> real, minsup: real): seq<Node>
  {
    if node.items !in done then [node]
    else if supports(node.items) < minsup then []
    else [node.(support := supports(node.items))]
  }

  ghost function Judged(list: seq<Node>, done: set<Itemset>, supports: Itemset -> real, minsup: real): seq<Node>
  {
    if list == [] then [] else
      Judged(list[..|list| - 1], done, supports, minsup) + Judge(list[|list| - 1], done, supports, minsup)
  }

  lemma {:induction false} WithoutAppend(p: seq<Node>, q: seq<Node>, items: Itemset, support: real)
    ensures Without(p + q, items) == Without(p, items) + Without(q, items)
    ensures WithSupport(p + q, items, support) == WithSupport(p, items, support) + WithSupport(q, items, support)
    decreases |q|
  {
    if q == [] {
      assert p + q == p;
    } else {
      assert (p + q)[..|p + q| - 1] == p + q[..|q| - 1];
      WithoutAppend(p, q[..|q| - 1], items, support);
    }
  }

  lemma {:induction false} JudgeOne(list: seq<Node>, done: set<Itemset>, supports: Itemset -> real, minsup: real, items: Itemset)
    ensures var support := supports(items);
      Judged(list, done + {items}, supports, minsup) ==
        if support < minsup then Without(Judged(list, done, supports, minsup), items)
        else WithSupport(Judged(list, done, supports, minsup), items, support)
  {
    if list != [] {
      var init, last := list[..|list| - 1], list[|list| - 1];
      JudgeOne(init, done, supports, minsup, items);
      WithoutAppend(Judged(init, done, supports, minsup), Judge(last, done, supports, minsup), items, supports(items));
      JudgeLast(last, done, supports, minsup, items);
    }
  }

  lemma JudgeLast(node: Node, done: set<Itemset>, supports: Itemset -> real, minsup: real, items: Itemset)
    ensures Judge(node, done + {items}, supports, minsup) ==
      if supports(items) < minsup then Without(Judge(node, done, supports, minsup), items)
      else WithSupport(Judge(node, done, supports, minsup), items, supports(items))
  {
    var judged := Judge(node, done, supports, minsup);
    if judged != [] {
      assert judged[..0] == [];
    }
  }

  // Rows of other candidates do not matter.
  lemma {:induction false} JudgeOther(list: seq<Node>, done: set<Itemset>, supports: Itemset -> real, minsup: real, items: Itemset)
    requires forall i :: 0 <= i < |list| ==> list[i].items != items
    ensures Judged(list, done + {items}, supports, minsup) == Judged(list, done, supports, minsup)
  {
    if list != [] {
      JudgeOther(list[..|list| - 1], done, supports, minsup, items);
    }
  }

  // Candidates by the itemset of their parent, each extending it by one item.
  type Candidates = map<Itemset, seq<Node>>

  ghost predicate ExtendParents(candidates: Candidates) {
    forall p, i :: p in candidates && 0 <= i < |candidates[p]| ==>
      candidates[p][i].items != [] && candidates[p][i].items[..|candidates[p][i].items| - 1] == p
  }

  ghost function CandidateItems(candidates: Candidates): set<(Itemset, Itemset)> {
    set p, i | p in candidates && 0 <= i < |candidates[p]| :: (candidates[p][i].items, p)
  }

  ghost predicate AreJudged(judged: Candidates, candidates: Candidates, done: set<Itemset>, supports: Itemset -> real, minsup: real) {
    judged.Keys == candidates.Keys && forall p :: p in candidates ==> judged[p] == Judged(candidates[p], done, supports, minsup)
  }

  // The supports are the counts of the rows as shares of all transactions.
  ghost predicate AreSupports(rows: set<LeafRow>, supports: Itemset -> real, total: nat)
    requires total > 0
  {
    forall r :: r in rows ==> r.transactionCount as real / total as real == supports(r.items)
  }

  ghost function ItemsOf(rows: set<LeafRow>): set<Itemset> {
    set r | r in rows :: r.items
  }

  class CandidateHashTree {
    const transactions: Transactions
    const branchingDegree: nat
    const minThreshold: nat
    ghost const size: nat
    var root: HashTreeNode

    ghost predicate Valid()
      reads this
    {
      branchingDegree > 0 && size > 0 && WellPlaced(root, branchingDegree, size, [])
    }

    constructor (transactions: Transactions, candidates: Candidates, branchingDegree: nat, minThreshold: nat, ghost size: nat)
      requires branchingDegree > 0 && size > 0
      requires forall p, i :: p in candidates && 0 <= i < |candidates[p]| ==> |candidates[p][i].items| == size
      ensures Valid() && this.transactions == transactions && RowItems(root) == CandidateItems(candidates)
      ensures MarkedIn(root, {}) && HasCounts(RowsOf(root), transactions, {})
    {
      this.transactions, this.branchingDegree, this.minThreshold, this.size := transactions, branchingDegree, minThreshold, size;
      root := HashTreeNode(1, -1, [], []);
      new;
      AddCandidates(candidates);
    }

    method AddCandidates(candidates: Candidates)
      requires Valid() && RowsOf(root) == {} && MarkedIn(root, {})
      requires forall p, i :: p in candidates && 0 <= i < |candidates[p]| ==> |candidates[p][i].items| == size
      modifies this`root
      ensures Valid() && RowItems(root) == CandidateItems(candidates)
      ensures MarkedIn(root, {}) && HasCounts(RowsOf(root), transactions, {})
    {
      hide WellPlaced, RowsOf, MarkedIn;
      var rest := candidates.Keys;
      ghost var rows: set<LeafRow> := {};
      while rest != {}
        invariant rest <= candidates.Keys && Valid() && MarkedIn(root, {}) && RowsOf(root) == rows
        invariant rows == set p, i | p in candidates && p !in rest && 0 <= i < |candidates[p]| :: LeafRow(candidates[p][i].items, p, 0)
        decreases |rest|
      {
        var p :| p in rest;
        AddChildren(candidates[p], p);
        rows := rows + set i | 0 <= i < |candidates[p]| :: LeafRow(candidates[p][i].items, p, 0);
        rest := rest - {p};
      }
      RowsAreCandidates(rows, candidates, root);
      NothingCounted(rows, transactions);
    }

    method AddChildren(children: seq<Node>, parent: Itemset)
      requires Valid() && MarkedIn(root, {}) && forall i :: 0 <= i < |children| ==> |children[i].items| == size
      modifies this`root
      ensures Valid() && MarkedIn(root, {})
      ensures RowsOf(root) == old(RowsOf(root)) + set i | 0 <= i < |children| :: LeafRow(children[i].items, parent, 0)
    {
      hide WellPlaced, RowsOf, MarkedIn;
      var i := 0;
      while i < |children|
        invariant 0 <= i <= |children| && Valid() && MarkedIn(root, {})
        invariant RowsOf(root) == old(RowsOf(root)) + set j | 0 <= j < i :: LeafRow(children[j].items, parent, 0)
      {
        AddCandidate(children[i].items, parent);
        i := i + 1;
      }
    }

    method AddCandidate(items: Itemset, parent: Itemset)
      requires Valid() && MarkedIn(root, {}) && |items| == size
      modifies this`root
      ensures Valid() && MarkedIn(root, {}) && RowsOf(root) == old(RowsOf(root)) + {LeafRow(items, parent, 0)}
    {
      root := AppendRow(LeafRow(items, parent, 0), root, branchingDegree, minThreshold, size, []);
    }

    // Counts every transaction. No row ends with more than the number of transactions that contain it, and each with
    // exactly that number when the ids can be told apart as int.
    method PerformCounting() returns (ghost order: seq<nat>)
      requires Valid() && MarkedIn(root, {}) && HasCounts(RowsOf(root), transactions, {})
      requires forall tid :: tid in transactions ==> IsSorted(transactions[tid])
      requires forall r :: r in RowsOf(root) ==> IsAscending(r.items)
      modifies this`root
      ensures Valid() && RowItems(root) == old(RowItems(root)) && (old(OneRowEach(RowsOf(root))) ==> OneRowEach(RowsOf(root)))
      ensures CountsAtMost(RowsOf(root), transactions, transactions.Keys)
      ensures ToldApart(transactions) ==> HasCounts(RowsOf(root), transactions, transactions.Keys)
      ensures IsOrder(order, transactions.Keys)
      ensures old(root.children) == [] ==> root == LeafAfter(old(root), order, transactions)
    {
      hide WellPlaced, RowsOf, MarkedIn, HasCounts, IsAscending, IsSorted, RowItems, ToldApart, Visited, NotVisited, LeafAfter, IntOf, Counted;
      hide OneRowEach, CountsAtMost, StemsFrom;
      ghost var start := root;
      AtMostAtFirst(RowsOf(root), transactions);
      var rest := transactions.Keys;
      ghost var done: set<nat> := {};
      order := [];
      LeafAfterNothing(start, transactions);
      while rest != {}
        invariant rest <= transactions.Keys && done == transactions.Keys - rest && IsOrder(order, done)
        invariant Valid() && MarkedIn(root, done) && CountsAtMost(RowsOf(root), transactions, done)
        invariant OneRowEach(RowsOf(start)) ==> OneRowEach(RowsOf(root))
        invariant ToldApart(transactions) ==> HasCounts(RowsOf(root), transactions, done)
        invariant RowItems(root) == RowItems(start) && forall r :: r in RowsOf(root) ==> IsAscending(r.items)
        invariant start.children == [] ==> root == LeafAfter(start, order, transactions) && root.children == []
        decreases |rest|
      {
        var tid :| tid in rest;
        ghost var before := root;
        if ToldApart(transactions) {
          CountsStep(RowsOf(root), transactions, done, tid);
          if transactions[tid] != [] {
            UnmarkedIsNotVisited(root, transactions, done, tid);
          }
        }
        CountTransaction(transactions[tid], tid, done);
        AtMostStep(RowsOf(before), RowsOf(root), transactions, done, tid);
        AscendingByItems(before, root);
        LeafAfterNext(start, order, transactions, tid);
        order := order + [tid];
        rest := rest - {tid};
        done := done + {tid};
      }
      assert done == transactions.Keys;
    }

    // One transaction raises exactly the rows it contains, unless a leaf carries its id already.
    method CountTransaction(items: seq<nat>, tid: nat, ghost done: set<nat>)
      requires Valid() && MarkedIn(root, done) && IsSorted(items)
      requires forall r :: r in RowsOf(root) ==> IsAscending(r.items)
      modifies this`root
      ensures Valid() && MarkedIn(root, done + {tid}) && RowItems(root) == old(RowItems(root))
      ensures old(NotVisited(root, IntOf(tid))) || items == [] ==> RowsOf(root) == set r | r in old(RowsOf(root)) :: Counted(r, items)
      ensures old(root.children) == [] ==> root == Visited(old(root), items, IntOf(tid)) && root.children == []
      ensures forall r :: r in RowsOf(root) ==> StemsFrom(r, old(RowsOf(root)), items)
      ensures old(OneRowEach(RowsOf(root))) ==> OneRowEach(RowsOf(root))
    {
      hide WellPlaced, RowsOf, MarkedIn, IsAscending, IsSorted, RowItems, IsProgress, Unvisited, NoneLeft, Contains, NotVisited, IntOf;
      hide OneRowEach, StemsFrom;
      ghost var before := root;
      var id := IntOf(tid);
      ProgressStart(root, items, id);
      if root.children == [] {
        root := VisitLeaf(root, items, id, before);
        ProgressItems(before, root, items, id);
      } else {
        var start := 0;
        while start < |items|
          invariant 0 <= start <= |items| && root.children != [] && IsProgress(before, root, items, id)
          invariant RowItems(root) == RowItems(before)
          invariant forall s :: 0 <= s < start ==> NoneLeft(Unvisited(root, id), items, 0, items[s])
        {
          AscendingByItems(before, root);
          ghost var left := Unvisited(root, id);
          root := FindAndVisitLeaves(root, start, items, id, branchingDegree, before, size, []);
          forall s | 0 <= s < start ensures NoneLeft(Unvisited(root, id), items, 0, items[s]) {
            NoneLeftFewer(left, Unvisited(root, id), items, 0, items[s]);
          }
          start := start + 1;
        }
        ProgressPlaced(before, root, items, id, branchingDegree, size, []);
        AllStarted(root, items, id, branchingDegree, size);
      }
      ProgressPlaced(before, root, items, id, branchingDegree, size, []);
      if NotVisited(before, id) {
        ProgressEnds(before, root, items, id);
      } else if items == [] {
        NothingToCount(before, root, id, branchingDegree, size, []);
      }
      ProgressMarks(before, root, items, tid, done);
      ProgressRows(before, root, items, id, branchingDegree, size, []);
    }

    // Erases the candidates below the minimum support and records the support of the others.
    method PruneNodes(minsup: real, candidates: Candidates, ghost supports: Itemset -> real) returns (pruned: Candidates)
      requires Valid() && |transactions| > 0 && RowItems(root) == CandidateItems(candidates) && ExtendParents(candidates)
      requires AreSupports(RowsOf(root), supports, |transactions|)
      ensures AreJudged(pruned, candidates, ItemsOf(RowsOf(root)), supports, minsup)
    {
      hide RowsOf, AreSupports, AreJudged;
      JudgingStarts(candidates, supports, minsup);
      RowsHaveParents(root, candidates);
      pruned := Prune(minsup, root, candidates, candidates, {}, [], supports);
      assert {} + ItemsOf(RowsOf(root)) == ItemsOf(RowsOf(root));
    }

    method Prune(minsup: real, node: HashTreeNode, candidates: Candidates, ghost original: Candidates, ghost done: set<Itemset>,
                 ghost path: seq<nat>, ghost supports: Itemset -> real)
      returns (pruned: Candidates)
      requires |transactions| > 0 && ExtendParents(original) && AreSupports(RowsOf(node), supports, |transactions|)
      requires forall r :: r in RowsOf(node) ==> r.parent in original && IsParent(r.parent, r.items)
      requires branchingDegree > 0 && WellPlaced(node, branchingDegree, size, path)
      requires AreJudged(candidates, original, done, supports, minsup)
      ensures AreJudged(pruned, original, done + ItemsOf(RowsOf(node)), supports, minsup)
      decreases node
    {
      hide AreSupports, AreJudged, IsParent, ExtendParents;
      pruned := candidates;
      ghost var seen: set<LeafRow> := {};
      assert done + ItemsOf(seen) == done;
      if node.children == [] {
        var k := 0;
        while k < |node.candidates|
          invariant 0 <= k <= |node.candidates| && seen == set r | r in node.candidates[..k]
          invariant AreJudged(pruned, original, done + ItemsOf(seen), supports, minsup)
        {
          var row := node.candidates[k];
          assert node.candidates[..k + 1] == node.candidates[..k] + [row] && row in RowsOf(node);
          RowSupport(RowsOf(node), supports, |transactions|, row);
          pruned := JudgeRow(minsup, row, pruned, original, done + ItemsOf(seen), supports);
          assert done + ItemsOf(seen + {row}) == done + ItemsOf(seen) + {row.items};
          seen := seen + {row};
          k := k + 1;
        }
        assert node.candidates[..k] == node.candidates;
        LeafRows(node);
      } else {
        pruned := PruneChildren(minsup, node, candidates, original, done, path, supports);
      }
    }

    method PruneChildren(minsup: real, node: HashTreeNode, candidates: Candidates, ghost original: Candidates, ghost done: set<Itemset>,
                         ghost path: seq<nat>, ghost supports: Itemset -> real)
      returns (pruned: Candidates)
      requires |transactions| > 0 && ExtendParents(original) && AreSupports(RowsOf(node), supports, |transactions|)
      requires forall r :: r in RowsOf(node) ==> r.parent in original && IsParent(r.parent, r.items)
      requires branchingDegree > 0 && WellPlaced(node, branchingDegree, size, path) && node.children != []
      requires AreJudged(candidates, original, done, supports, minsup)
      ensures AreJudged(pruned, original, done + ItemsOf(RowsOf(node)), supports, minsup)
      decreases node, 0
    {
      hide AreSupports, AreJudged, IsParent, ExtendParents, RowsOf, WellPlaced;
      PlacedShape(node, branchingDegree, size, path);
      pruned := candidates;
      var i := 0;
      NoChildrenYet(node);
      assert done + ItemsOf(FirstRows(node, 0)) == done;
      while i < |node.children|
        invariant 0 <= i <= |node.children|
        invariant AreJudged(pruned, original, done + ItemsOf(FirstRows(node, i)), supports, minsup)
      {
        NextChild(node, i);
        ChildPlaced(node, branchingDegree, size, path, i);
        FewerSupports(RowsOf(node), RowsOf(node.children[i]), supports, |transactions|);
        pruned := Prune(minsup, node.children[i], pruned, original, done + ItemsOf(FirstRows(node, i)), path + [i], supports);
        assert done + ItemsOf(FirstRows(node, i)) + ItemsOf(RowsOf(node.children[i])) == done + ItemsOf(FirstRows(node, i + 1));
        i := i + 1;
      }
      AllChildren(node);
    }

    method JudgeRow(minsup: real, row: LeafRow, candidates: Candidates, ghost original: Candidates, ghost done: set<Itemset>,
                    ghost supports: Itemset -> real)
      returns (judged: Candidates)
      requires |transactions| > 0 && ExtendParents(original) && row.parent in original && IsParent(row.parent, row.items)
      requires row.transactionCount as real / |transactions| as real == supports(row.items)
      requires AreJudged(candidates, original, done, supports, minsup)
      ensures AreJudged(judged, original, done + {row.items}, supports, minsup)
    {
      hide Judged, Without, WithSupport, IsParent, Judge;
      var support := row.transactionCount as real / |transactions| as real;
      JudgeOne(original[row.parent], done, supports, minsup, row.items);
      forall p | p in original && p != row.parent
        ensures Judged(original[p], done + {row.items}, supports, minsup) == candidates[p]
      {
        OtherParent(original, p, row);
        JudgeOther(original[p], done, supports, minsup, row.items);
      }
      if support < minsup {
        judged := candidates[row.parent := Without(candidates[row.parent], row.items)];
      } else {
        judged := candidates[row.parent := WithSupport(candidates[row.parent], row.items, support)];
      }
    }
  }

  lemma OtherParent(original: Candidates, p: Itemset, row: LeafRow)
    requires ExtendParents(original) && IsParent(row.parent, row.items) && p in original && p != row.parent
    ensures forall i :: 0 <= i < |original[p]| ==> original[p][i].items != row.items
  {
  }

  ghost function FirstRows(node: HashTreeNode, n: nat): set<LeafRow>
    requires n <= |node.children|
  {
    set i, r | 0 <= i < n && r in RowsOf(node.children[i]) :: r
  }

  lemma NoChildrenYet(node: HashTreeNode)
    ensures FirstRows(node, 0) == {}
  {
  }

  lemma NextChild(node: HashTreeNode, n: nat)
    requires n < |node.children|
    ensures FirstRows(node, n + 1) == FirstRows(node, n) + RowsOf(node.children[n])
    ensures RowsOf(node.children[n]) <= RowsOf(node)
  {
    hide RowsOf;
    ChildRowIsThere(node, n);
    forall r | r in FirstRows(node, n + 1) ensures r in FirstRows(node, n) || r in RowsOf(node.children[n]) {
      var i :| 0 <= i < n + 1 && r in RowsOf(node.children[i]);
    }
    forall r | r in FirstRows(node, n) ensures r in FirstRows(node, n + 1) {
      var i :| 0 <= i < n && r in RowsOf(node.children[i]);
    }
  }

  lemma AllChildren(node: HashTreeNode)
    requires node.candidates == []
    ensures RowsOf(node) == FirstRows(node, |node.children|)
  {
  }

  lemma RowSupport(rows: set<LeafRow>, supports: Itemset -> real, total: nat, row: LeafRow)
    requires total > 0 && AreSupports(rows, supports, total) && row in rows
    ensures row.transactionCount as real / total as real == supports(row.items)
  {
  }

  lemma FewerSupports(rows: set<LeafRow>, fewer: set<LeafRow>, supports: Itemset -> real, total: nat)
    requires total > 0 && AreSupports(rows, supports, total) && fewer <= rows
    ensures AreSupports(fewer, supports, total)
  {
  }

  ghost predicate IsParent(parent: Itemset, items: Itemset) {
    items != [] && items[..|items| - 1] == parent
  }

  lemma RowsAreCandidates(rows: set<LeafRow>, candidates: Candidates, root: HashTreeNode)
    requires rows == RowsOf(root)
    requires rows == set p, i | p in candidates && 0 <= i < |candidates[p]| :: LeafRow(candidates[p][i].items, p, 0)
    ensures RowItems(root) == CandidateItems(candidates)
  {
    forall q | q in CandidateItems(candidates) ensures q in RowItems(root) {
      var p, i :| p in candidates && 0 <= i < |candidates[p]| && q == (candidates[p][i].items, p);
      assert LeafRow(candidates[p][i].items, p, 0) in RowsOf(root);
    }
  }

  lemma AtMostAtFirst(rows: set<LeafRow>, transactions: Transactions)
    requires HasCounts(rows, transactions, {})
    ensures CountsAtMost(rows, transactions, {})
  {
  }

  lemma NothingCounted(rows: set<LeafRow>, transactions: Transactions)
    requires forall r :: r in rows ==> r.transactionCount == 0
    ensures HasCounts(rows, transactions, {})
  {
    forall r | r in rows ensures |Supporting(transactions, {}, r.items)| == 0 {
      assert Supporting(transactions, {}, r.items) == {};
    }
  }

  // A contained row has its first item at some position.
  lemma AllStarted(root: HashTreeNode, items: seq<nat>, tid: int, degree: nat, size: nat)
    requires degree > 0 && size > 0 && WellPlaced(root, degree, size, [])
    requires forall s :: 0 <= s < |items| ==> NoneLeft(Unvisited(root, tid), items, 0, items[s])
    ensures forall r :: r in Unvisited(root, tid) ==> !Contains(items, r.items)
  {
    hide WellPlaced, RowsOf, Unvisited, Fits;
    UnvisitedFit(root, tid);
    RowsFit(root, degree, size, []);
    forall r | r in Unvisited(root, tid) ensures !Contains(items, r.items) {
      FitsSizes(r.items, degree, size, []);
      if r.items[0] in items {
        var s :| 0 <= s < |items| && items[s] == r.items[0];
        assert NoneLeft(Unvisited(root, tid), items, 0, items[s]);
      }
    }
  }

  lemma {:induction false} JudgedNothing(list: seq<Node>, supports: Itemset -> real, minsup: real)
    ensures Judged(list, {}, supports, minsup) == list
  {
    if list != [] {
      JudgedNothing(list[..|list| - 1], supports, minsup);
      assert list == list[..|list| - 1] + [list[|list| - 1]];
    }
  }

  lemma JudgingStarts(candidates: Candidates, supports: Itemset -> real, minsup: real)
    ensures AreJudged(candidates, candidates, {}, supports, minsup)
  {
    forall p | p in candidates ensures candidates[p] == Judged(candidates[p], {}, supports, minsup) {
      JudgedNothing(candidates[p], supports, minsup);
    }
  }

  lemma RowsHaveParents(root: HashTreeNode, candidates: Candidates)
    requires RowItems(root) == CandidateItems(candidates) && ExtendParents(candidates)
    ensures forall r :: r in RowsOf(root) ==> r.parent in candidates && IsParent(r.parent, r.items)
  {
    hide RowsOf;
    forall r | r in RowsOf(root) ensures r.parent in candidates && IsParent(r.parent, r.items) {
      assert (r.items, r.parent) in RowItems(root);
      var p, i :| p in candidates && 0 <= i < |candidates[p]| && (r.items, r.parent) == (candidates[p][i].items, p);
    }
  }
}
