// Which transaction ids the counting of Apriori cannot tell apart, and what is missed then.
module MissedCounts {
  import opened Relations
  import opened CandidateHashTrees

  // A tree that is a single leaf with one row.
  function SingleLeaf(row: LeafRow): HashTreeNode {
    HashTreeNode(1, -1, [], [row])
  }

  function CountIn(leaf: HashTreeNode): nat {
    if leaf.candidates == [] then 0 else leaf.candidates[0].transactionCount
  }

  ghost function Members(order: seq<nat>): set<nat> {
    set tid | tid in order
  }

  // One more transaction: the count rises by at most one, and only when the transaction contains the row.
  lemma OneMore(leaf: HashTreeNode, items: Itemset, transactions: Transactions, done: set<nat>, tid: nat)
    requires tid in transactions && tid !in done && |leaf.candidates| == 1 && leaf.candidates[0].items == items
    ensures var after := Visited(leaf, transactions[tid], IntOf(tid));
      && |after.candidates| == 1 && after.candidates[0].items == items && after.lastVisited == IntOf(tid)
      && CountIn(after) - |Supporting(transactions, done + {tid}, items)| <= CountIn(leaf) - |Supporting(transactions, done, items)|
      && (leaf.lastVisited == IntOf(tid) && Contains(transactions[tid], items) ==>
            CountIn(after) - |Supporting(transactions, done + {tid}, items)| < CountIn(leaf) - |Supporting(transactions, done, items)|)
  {
    hide IntOf, Contains;
    var before, after := Supporting(transactions, done, items), Supporting(transactions, done + {tid}, items);
    assert after == if Contains(transactions[tid], items) then before + {tid} else before;
  }

  // How far the count of a single leaf is above the support; it never rises.
  lemma {:induction false} NeverAbove(row: LeafRow, order: seq<nat>, transactions: Transactions, n: nat)
    requires NoDuplicates(order) && (forall tid :: tid in order ==> tid in transactions) && n <= |order|
    ensures |LeafAfter(SingleLeaf(row), order, transactions).candidates| == 1
    ensures LeafAfter(SingleLeaf(row), order, transactions).candidates[0].items == row.items
    ensures Above(row, order, transactions) <= Above(row, order[..n], transactions)
    decreases |order|
  {
    if n == |order| {
      assert order[..n] == order;
    }
    if order != [] {
      var init, tid := order[..|order| - 1], order[|order| - 1];
      assert order == init + [tid] && tid !in init;
      NeverAbove(row, init, transactions, if n < |order| then n else |init|);
      assert n < |order| ==> init[..n] == order[..n];
      assert Members(order) == Members(init) + {tid};
      OneMore(LeafAfter(SingleLeaf(row), init, transactions), row.items, transactions, Members(init), tid);
      LeafAfterNext(SingleLeaf(row), init, transactions, tid);
    }
  }

  ghost function Above(row: LeafRow, order: seq<nat>, transactions: Transactions): int
    requires forall tid :: tid in order ==> tid in transactions
  {
    CountIn(LeafAfter(SingleLeaf(row), order, transactions)) - |Supporting(transactions, Members(order), row.items)|
  }

  // A transaction that comes first with the mark of an unvisited leaf as its id, or second with the id of the first, is skipped.
  lemma SecondIsSkipped(row: LeafRow, start: seq<nat>, tid: nat, transactions: Transactions)
    requires row.transactionCount == 0 && NoDuplicates(start + [tid]) && forall id :: id in start + [tid] ==> id in transactions
    requires Contains(transactions[tid], row.items)
    requires (start == [] && IntOf(tid) == -1) || (|start| == 1 && IntOf(start[0]) == IntOf(tid))
    ensures Above(row, start + [tid], transactions) < 0
  {
    hide IntOf, Contains;
    var order := start + [tid];
    assert order[|start|] == tid && order[..|start|] == start && tid !in start;
    assert forall id :: id in start ==> id in order;
    NeverAbove(row, start, transactions, 0);
    assert start[..0] == [] && Supporting(transactions, Members([]), row.items) == {};
    var leaf := LeafAfter(SingleLeaf(row), start, transactions);
    if start != [] {
      assert start[..0] == [] && start == [] + [start[0]];
      LeafAfterNext(SingleLeaf(row), [], transactions, start[0]);
    }
    assert leaf.lastVisited == IntOf(tid);
    assert Members(order) == Members(start) + {tid};
    OneMore(leaf, row.items, transactions, Members(start), tid);
    LeafAfterNext(SingleLeaf(row), start, transactions, tid);
  }

  lemma {:induction false} AnyOrder(start: seq<nat>, rest: set<nat>) returns (order: seq<nat>)
    requires NoDuplicates(start) && forall tid :: tid in rest ==> tid !in start
    ensures IsOrder(order, Members(start) + rest) && start <= order
    decreases rest
  {
    if rest == {} {
      order := start;
    } else {
      var tid :| tid in rest;
      assert Members(start + [tid]) == Members(start) + {tid};
      order := AnyOrder(start + [tid], rest - {tid});
      assert Members(start + [tid]) + (rest - {tid}) == Members(start) + rest;
    }
  }

  // Whenever the ids cannot be told apart, some order of the transactions and some single item give a count that is too small.
  lemma MissedUnlessToldApart(transactions: Transactions) returns (order: seq<nat>, item: nat)
    requires !ToldApart(transactions)
    ensures IsOrder(order, transactions.Keys)
    ensures CountIn(LeafAfter(SingleLeaf(LeafRow([item], [], 0)), order, transactions))
      < |Supporting(transactions, transactions.Keys, [item])|
  {
    hide IntOf;
    var tid :| tid in transactions && transactions[tid] != []
      && (IntOf(tid) == -1 || exists other :: other in transactions && other != tid && IntOf(other) == IntOf(tid));
    item := transactions[tid][0];
    var start: seq<nat> := [];
    if IntOf(tid) != -1 {
      var other :| other in transactions && other != tid && IntOf(other) == IntOf(tid);
      start := [other];
    }
    var row := LeafRow([item], [], 0);
    SecondIsSkipped(row, start, tid, transactions);
    var first := start + [tid];
    order := AnyOrder(first, transactions.Keys - Members(first));
    assert Members(first) + (transactions.Keys - Members(first)) == transactions.Keys;
    assert order[..|first|] == first && Members(order) == transactions.Keys;
    NeverAbove(row, order, transactions, |first|);
  }

  // Inputs that show it: two transactions with item 0, and a single one.
  lemma CollidingIds()
    ensures var transactions := map[0 := [0], 0x1_0000_0000 := [0]];
      && CountIn(LeafAfter(SingleLeaf(LeafRow([0], [], 0)), [0, 0x1_0000_0000], transactions)) == 1
      && |Supporting(transactions, transactions.Keys, [0])| == 2
    ensures var transactions := map[0xFFFF_FFFF := [0]];
      && CountIn(LeafAfter(SingleLeaf(LeafRow([0], [], 0)), [0xFFFF_FFFF], transactions)) == 0
      && |Supporting(transactions, transactions.Keys, [0])| == 1
  {
    var row := LeafRow([0], [], 0);
    var two, one := map[0 := [0], 0x1_0000_0000 := [0]], map[0xFFFF_FFFF := [0]];
    LeafAfterNext(SingleLeaf(row), [], two, 0);
    LeafAfterNext(SingleLeaf(row), [0], two, 0x1_0000_0000);
    LeafAfterNext(SingleLeaf(row), [], one, 0xFFFF_FFFF);
    assert [] + [0] == [0] && [0] + [0x1_0000_0000] == [0, 0x1_0000_0000] && [] + [0xFFFF_FFFF] == [0xFFFF_FFFF];
    assert Supporting(two, two.Keys, [0]) == {0, 0x1_0000_0000};
    assert Supporting(one, one.Keys, [0]) == {0xFFFF_FFFF};
  }
}
