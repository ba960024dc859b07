// The search tree of AID: a crit-bit tree over column sets whose inner nodes carry unions and intersections.
module SearchTrees {
  import opened Relations
  import opened Bits
  import opened SearchTreeNodes

  ghost function Smaller(c: nat, d: nat): nat {
    if c < d then c else d
  }

  // The positions of the first columns that the two sets do not share; both are size when the sets are equal.
  method FindNodeAndSetBits(nodeSet: Vertical, other: Vertical, size: nat) returns (nodeBit: nat, setBit: nat)
    requires nodeSet <= UpTo(size) && other <= UpTo(size)
    ensures nodeBit == setBit <==> nodeSet == other
    ensures nodeBit != setBit ==>
      var d := Smaller(nodeBit, setBit);
      && d < size && AgreeBelow(other, nodeSet, d)
      && (d in nodeSet <==> nodeBit < setBit) && (d in other <==> setBit < nodeBit)
  {
    nodeBit, setBit := FindFrom(nodeSet, 0, size), FindFrom(other, 0, size);
    ghost var p := 0;
    while nodeBit == setBit && nodeBit != size
      invariant p <= size && nodeBit == FindFrom(nodeSet, p, size) && setBit == FindFrom(other, p, size)
      invariant AgreeBelow(other, nodeSet, p)
      decreases size - p
    {
      p := nodeBit + 1;
      nodeBit, setBit := FindNext(nodeSet, nodeBit, size), FindNext(other, setBit, size);
    }
    if nodeBit == setBit {
      assert forall c :: c in nodeSet <==> c in other;
    }
  }

  class SearchTree {
    const numberOfAttributes: nat
    var cardinality: nat
    var root: Node?
    ghost var Nodes: set<Node>
    ghost var Held: Holding  // the sets at the leaves below each node

    ghost predicate Valid()
      reads this, Nodes
    {
      && IsTree(TreeOf(Nodes), root, Held, {})
      && cardinality == |Contents()|
      && forall x :: x in Contents() ==> x <= UpTo(numberOfAttributes)
    }

    ghost function Contents(): set<Vertical>
      reads this
    {
      if root != null && root in Held then Held[root] else {}
    }

    ghost function Repr(): set<object>
      reads this
    {
      Nodes + {this}
    }

    constructor (numberOfAttributes: nat)
      ensures Valid() && fresh(Repr()) && Contents() == {} && this.numberOfAttributes == numberOfAttributes
    {
      this.numberOfAttributes, cardinality, root := numberOfAttributes, 0, null;
      Nodes, Held := {}, map[];
    }

    // Recomputes the unions and intersections from a node up to the root.
    method UpdateInterAndUnion(node: Node?, ghost path: seq<Node>)
      requires if node == null then path == [] else path != [] && path[|path| - 1] == node && IsPath(TreeOf(Nodes), root, path)
      requires IsTree(TreeOf(Nodes), root, Held, OnPath(path, |path|))
      requires forall n :: n in path ==> n in Nodes && !n.IsLeaf()
      modifies Nodes
      ensures IsTree(TreeOf(Nodes), root, Held, {})
    {
      hide IsTree, IsPath, HasShape, HasSums, HasPlace, OnPath;
      var nodeCopy := node;
      ghost var rest := path;
      while nodeCopy != null
        invariant if nodeCopy == null then rest == [] else rest != [] && rest[|rest| - 1] == nodeCopy && IsPath(TreeOf(Nodes), root, rest)
        invariant IsTree(TreeOf(Nodes), root, Held, OnPath(rest, |rest|))
        invariant forall n :: n in rest ==> n in Nodes && !n.IsLeaf()
        decreases |rest|
      {
        nodeCopy, rest := UpdateOne(nodeCopy, rest);
      }
      NothingOnPath();
    }

    method UpdateOne(nodeCopy: Node, ghost path: seq<Node>) returns (next: Node?, ghost rest: seq<Node>)
      requires path != [] && path[|path| - 1] == nodeCopy && IsPath(TreeOf(Nodes), root, path)
      requires IsTree(TreeOf(Nodes), root, Held, OnPath(path, |path|))
      requires forall n :: n in path ==> n in Nodes && !n.IsLeaf()
      modifies nodeCopy
      ensures rest == path[..|path| - 1]
      ensures if next == null then rest == [] else rest != [] && rest[|rest| - 1] == next && IsPath(TreeOf(Nodes), root, rest)
      ensures IsTree(TreeOf(Nodes), root, Held, OnPath(rest, |rest|))
      ensures forall n :: n in rest ==> n in Nodes && !n.IsLeaf()
    {
      hide IsTree, IsPath, HasShape, HasSums, HasPlace;
      ghost var tree := TreeOf(Nodes);
      PathParent(tree, root, path, |path| - 1);
      UpdateStep(tree, root, Held, path);
      rest := path[..|path| - 1];
      assert OnPath(path, |path| - 1) == OnPath(rest, |rest|);
      nodeCopy.unionSet, nodeCopy.interSet :=
        nodeCopy.left.GetUnion() + nodeCopy.right.GetUnion(), nodeCopy.left.GetInter() * nodeCopy.right.GetInter();
      next := nodeCopy.parent;
      assert TreeOf(Nodes) == tree[nodeCopy := nodeCopy.Fields()];
      if |rest| > 0 {
        RestInTree(tree, root, path);
        PathKept(tree, TreeOf(Nodes), root, path, |rest|);
      }
    }

    lemma NothingOnPath()
      requires IsTree(TreeOf(Nodes), root, Held, OnPath([], 0))
      ensures IsTree(TreeOf(Nodes), root, Held, {})
    {
      assert OnPath([], 0) == {};
    }

    // Makes a node an inner node over two subtrees.
    method BecomeInner(current: Node, bit: nat, newLeft: Node, newRight: Node)
      requires current in Nodes
      modifies current
      ensures TreeOf(Nodes) == old(TreeOf(Nodes))[current := current.Fields()]
      ensures current.Fields() == old(current.Fields()).(bit := bit, left := newLeft, right := newRight)
    {
      current.bit := bit;
      current.left := newLeft;
      current.right := newRight;
    }

    // The new nodes of an insertion at a leaf.
    method SplitLeaf(current: Node, newSet: Vertical, nodeBit: nat, setBit: nat, ghost path: seq<Node>)
      returns (ghost oldChild: Node, ghost leaf: Node)
      requires path != [] && path[|path| - 1] == current && current in Nodes && current.IsLeaf() && Nodes == Held.Keys
      requires nodeBit != setBit && var d := Smaller(nodeBit, setBit); (d in newSet <==> setBit < nodeBit)
      modifies this`Nodes, this`Held, current
      ensures fresh(oldChild) && fresh(leaf) && Nodes == old(Nodes) + {oldChild, leaf}
      ensures GrewAtEnd(old(TreeOf(Nodes)), TreeOf(Nodes), old(Held), Held, path, newSet, Smaller(nodeBit, setBit), oldChild, leaf)
    {
      hide Grown, GrewAtEnd, FindFrom, TreeOf;
      ghost var tree, held := TreeOf(Nodes), Held;
      LeafInTree(current);
      ghost var v := current.Fields();
      var nodeSet := current.nodeSet;
      var newLeft, newRight;
      if nodeBit < setBit {
        newRight := new Node(FindNext(nodeSet, nodeBit, numberOfAttributes), nodeSet, {}, {}, current, null, null);
        newLeft := new Node(setBit, newSet, {}, {}, current, null, null);
        oldChild, leaf := newRight, newLeft;
        TreeKeysAre(Nodes);
        BecomeInner(current, nodeBit, newLeft, newRight);
      } else {
        newLeft := new Node(nodeBit, nodeSet, {}, {}, current, null, null);
        newRight := new Node(FindNext(newSet, setBit, numberOfAttributes), newSet, {}, {}, current, null, null);
        oldChild, leaf := newLeft, newRight;
        TreeKeysAre(Nodes);
        BecomeInner(current, setBit, newLeft, newRight);
      }
      ghost var after := TreeOfMore(Nodes, oldChild, leaf);
      Nodes := Nodes + {oldChild, leaf};
      Held := Grown(held, path, newSet)[oldChild := {nodeSet}][leaf := {newSet}];
      GrewAtEndWhen(tree, held, path, newSet, Smaller(nodeBit, setBit), oldChild, leaf,
        current.Fields(), oldChild.Fields(), leaf.Fields(), after, Held);
    }

    // Turns a leaf into an inner node over its old set and the new one.
    method InsertLeafIntoEnd(current: Node, newSet: Vertical, nodeBit: nat, setBit: nat, ghost path: seq<Node>)
      requires path != [] && path[|path| - 1] == current && current in Nodes && current.IsLeaf() && root != null && root in Held
      requires IsTree(TreeOf(Nodes), root, Held, {}) && IsPath(TreeOf(Nodes), root, path)
      requires Follows(TreeOf(Nodes), Held, path, newSet)
      requires nodeBit != setBit
      requires var d := Smaller(nodeBit, setBit);
        && AgreeBelow(newSet, current.nodeSet, d)
        && (d in current.nodeSet <==> nodeBit < setBit) && (d in newSet <==> setBit < nodeBit)
      modifies this`Nodes, this`Held, Nodes
      ensures IsTree(TreeOf(Nodes), root, Held, {}) && fresh(Nodes - old(Nodes)) && root in Held
      ensures Held[root] == old(Held[root]) + {newSet}
    {
      hide IsTree, IsPath, Follows, AgreeBelow, GrewAtEnd, Smaller, TreeOf;
      ghost var tree, held, d := TreeOf(Nodes), Held, Smaller(nodeBit, setBit);
      NodesAreKeys();
      LeafInTree(current);
      ghost var oldChild, leaf := SplitLeaf(current, newSet, nodeBit, setBit, path);
      GrowEnd(tree, TreeOf(Nodes), root, held, Held, path, newSet, d, oldChild, leaf);
      EndAfter(tree, TreeOf(Nodes), root, held, Held, path, newSet, d, oldChild, leaf);
      InNodes(path);
      UpdateInterAndUnion(current, path);
    }

    // Hangs the two subtrees of a node below another one.
    method MoveChildren(l: Node, r: Node, replacingNode: Node)
      requires l in Nodes && r in Nodes && l != r
      modifies l, r
      ensures TreeOf(Nodes) == old(TreeOf(Nodes))[l := l.Fields()][r := r.Fields()]
      ensures l.Fields() == old(l.Fields()).(parent := replacingNode) && r.Fields() == old(r.Fields()).(parent := replacingNode)
    {
      l.parent := replacingNode;
      r.parent := replacingNode;
    }

    // The new nodes of an insertion at an inner node.
    method SplitInner(current: Node, newSet: Vertical, setBit: nat, ghost path: seq<Node>)
      returns (ghost copy: Node, ghost leaf: Node)
      requires path != [] && path[|path| - 1] == current && current in Nodes && Nodes == Held.Keys
      requires current.left != null && current.right != null && current.left in Nodes && current.right in Nodes
      requires current.left != current.right && current.left != current && current.right != current
      modifies this`Nodes, this`Held, current, current.left, current.right
      ensures fresh(copy) && fresh(leaf) && Nodes == old(Nodes) + {copy, leaf}
      ensures GrewInMiddle(old(TreeOf(Nodes)), TreeOf(Nodes), old(Held), Held, path, newSet, setBit, copy, leaf)
    {
      hide Grown, GrewInMiddle, FindFrom, FindNext, TreeOf;
      ghost var tree, held := TreeOf(Nodes), Held;
      var l, r := current.left, current.right;
      LeafInTree(current);
      LeafInTree(l);
      LeafInTree(r);
      ghost var v, vl, vr := current.Fields(), l.Fields(), r.Fields();
      var newLeft := new Node(current.bit, current.nodeSet, current.unionSet, current.interSet, current, l, r);
      var newRight := new Node(FindNext(newSet, setBit, numberOfAttributes), newSet, {}, {}, current, null, null);
      copy, leaf := newLeft, newRight;
      var replacingNode := newLeft;
      TreeKeysAre(Nodes);
      if setBit !in newSet {
        newLeft, newRight := newRight, newLeft;
        replacingNode := newRight;
      }
      MoveChildren(l, r, replacingNode);
      BecomeInner(current, setBit, newLeft, newRight);
      ghost var after := TreeOfMore(Nodes, copy, leaf);
      Nodes := Nodes + {copy, leaf};
      Held := Grown(held, path, newSet)[copy := held[current]][leaf := {newSet}];
      SwapUpdates(tree, current, l, r, current.Fields(), l.Fields(), r.Fields());
      GrewInMiddleWhen(tree, held, path, newSet, setBit, copy, leaf, current.Fields(), leaf.Fields(), after, Held);
    }

    // Moves an inner node to a copy and puts it and the new leaf below a new bit.
    method InsertLeafIntoMiddle(current: Node, newSet: Vertical, setBit: nat, ghost path: seq<Node>)
      requires path != [] && path[|path| - 1] == current && current in Nodes && current in Held && !current.IsLeaf()
      requires IsTree(TreeOf(Nodes), root, Held, {}) && IsPath(TreeOf(Nodes), root, path) && root != null && root in Held
      requires Follows(TreeOf(Nodes), Held, path, newSet)
      requires forall y :: y in Held[current] ==> AgreeBelow(newSet, y, setBit) && (setBit in y) != (setBit in newSet)
      modifies this`Nodes, this`Held, Nodes
      ensures IsTree(TreeOf(Nodes), root, Held, {}) && fresh(Nodes - old(Nodes)) && root in Held
      ensures Held[root] == old(Held[root]) + {newSet}
    {
      hide IsTree, IsPath, Follows, AgreeBelow, GrewInMiddle, TreeOf;
      ghost var tree, held := TreeOf(Nodes), Held;
      NodesAreKeys();
      InnerInTree(current);
      ghost var copy, leaf := SplitInner(current, newSet, setBit, path);
      GrowMiddle(tree, TreeOf(Nodes), root, held, Held, path, newSet, setBit, copy, leaf);
      MiddleAfter(tree, TreeOf(Nodes), root, held, Held, path, newSet, setBit, copy, leaf);
      InNodes(path);
      UpdateInterAndUnion(current, path);
    }

    // The parent takes over what the other child is.
    method TakeOver(parentNode: Node, other: Node)
      requires parentNode in Nodes && other in Nodes && parentNode != other
      requires !other.IsLeaf() ==>
        && other.left != null && other.right != null && other.left in Nodes && other.right in Nodes
        && other.left != other.right && other.left != parentNode && other.right != parentNode
        && other.left != other && other.right != other
      modifies parentNode, if other.IsLeaf() then {} else {other.left, other.right}
      ensures forall n :: n in Nodes && n != parentNode && n != old(other.left) && n != old(other.right) ==>
        n.Fields() == old(TreeOf(Nodes))[n]
      ensures forall n :: n in Nodes && (n == old(other.left) || n == old(other.right)) ==>
        n.Fields() == old(TreeOf(Nodes))[n].(parent := parentNode)
      ensures parentNode.Fields() == NodeFields(if other.IsLeaf() then old(parentNode.bit) else other.bit, other.nodeSet,
        other.unionSet, other.interSet, other.left, other.right, old(parentNode.parent))
    {
      parentNode.left := other.left;
      parentNode.right := other.right;
      parentNode.nodeSet := other.nodeSet;
      parentNode.unionSet := other.unionSet;
      parentNode.interSet := other.interSet;
      if !other.IsLeaf() {
        parentNode.bit := other.bit;
        parentNode.left.parent := parentNode;
        parentNode.right.parent := parentNode;
      }
    }

    // Cuts a leaf off; its parent takes over the other child.
    method CutLeaf(nodeToRemove: Node, ghost path: seq<Node>)
      requires path != [] && path[|path| - 1] == nodeToRemove && nodeToRemove in Nodes && nodeToRemove.IsLeaf()
      requires IsTree(TreeOf(Nodes), root, Held, {}) && IsPath(TreeOf(Nodes), root, path) && root != null && root in Held
      requires Follows(TreeOf(Nodes), Held, path, nodeToRemove.nodeSet)
      modifies this`Nodes, this`Held, this`root, Nodes
      ensures IsTree(TreeOf(Nodes), root, Held, {}) && Nodes <= old(Nodes)
      ensures Contents() == old(Contents()) - {old(nodeToRemove.nodeSet)}
    {
      hide IsTree, IsPath, Follows, Shrank, TreeOf, OtherChild;
      ghost var tree, held, x := TreeOf(Nodes), Held, nodeToRemove.nodeSet;
      NodesAreKeys();
      TreeKeysAre(Nodes);
      LeafInTree(nodeToRemove);
      PathParent(tree, root, path, |path| - 1);
      PathParent(tree, root, path, 0);
      if nodeToRemove == root {
        LeafHolds(tree, root, held, root);
        root, Nodes, Held := null, {}, map[];
        EmptyTree();
        return;
      }
      LastNodes(tree, root, held, path, x);
      CutInner(nodeToRemove, path);
      ShrinkTree(tree, TreeOf(Nodes), root, held, Held, path, x);
      ShrankPath(tree, TreeOf(Nodes), root, held, Held, path, x);
      InNodes(path[..|path| - 2]);
      PrefixNodes(path);
      var parentNode := nodeToRemove.parent;
      LeafInTree(parentNode);
      UpdateInterAndUnion(parentNode.parent, path[..|path| - 2]);
    }

    // The rewiring around a leaf that is not the root.
    method CutInner(nodeToRemove: Node, ghost path: seq<Node>)
      requires |path| >= 2 && path[|path| - 1] == nodeToRemove && nodeToRemove in Nodes && nodeToRemove.IsLeaf()
      requires IsTree(TreeOf(Nodes), root, Held, {}) && IsPath(TreeOf(Nodes), root, path)
      requires Follows(TreeOf(Nodes), Held, path, nodeToRemove.nodeSet)
      modifies this`Nodes, this`Held, Nodes
      ensures path[|path| - 2] in old(TreeOf(Nodes)) && nodeToRemove.parent == path[|path| - 2] && nodeToRemove.parent in Nodes
      ensures Nodes <= old(Nodes)
      ensures Shrank(old(TreeOf(Nodes)), TreeOf(Nodes), old(Held), Held, path, old(nodeToRemove.nodeSet))
    {
      hide IsTree, IsPath, Follows, Shrank, TreeOf, OtherChild;
      ghost var tree, held, x := TreeOf(Nodes), Held, nodeToRemove.nodeSet;
      NodesAreKeys();
      TreeKeysAre(Nodes);
      LeafInTree(nodeToRemove);
      PathParent(tree, root, path, |path| - 1);
      LastNodes(tree, root, held, path, x);
      ghost var q := OtherChild(tree, path);
      var parentNode := nodeToRemove.parent;
      LeafInTree(parentNode);
      LeafInTree(q);
      OtherChildIs(tree, path);
      ChildrenOf(tree, root, held, path, q);
      PathParent(tree, root, path, |path| - 2);
      var anotherChildNode := if parentNode.right == nodeToRemove then parentNode.left else parentNode.right;
      TakeOver(parentNode, anotherChildNode);
      Nodes := Nodes - {nodeToRemove, q};
      Held := Lessened(held, path, x, nodeToRemove, q);
      CutTree(nodeToRemove, parentNode, q, tree, held, path, x);
    }

    // The tree after the parent has taken over.
    lemma CutTree(leaf: Node, p: Node, q: Node, tree: Tree, held: Holding, path: seq<Node>, x: Vertical)
      requires Nodes == tree.Keys - {leaf, q} && held.Keys == tree.Keys
      requires |path| >= 2 && path[|path| - 2] == p && path[|path| - 1] == leaf && p in tree && q in tree
      requires q == OtherChild(tree, path) && p != q && leaf != q && p != leaf
      requires Held == Lessened(held, path, x, leaf, q)
      requires forall n :: n in tree ==> (tree[n].parent == q <==> n == tree[q].left || n == tree[q].right)
      requires forall n :: n in tree && n != p && n != tree[q].left && n != tree[q].right ==> n.Fields() == tree[n]
      requires forall n :: n in tree && (n == tree[q].left || n == tree[q].right) ==> n.Fields() == tree[n].(parent := p)
      requires p.Fields() == tree[q].(bit := if tree[q].IsLeaf() then tree[p].bit else tree[q].bit, parent := tree[p].parent)
      ensures Shrank(tree, TreeOf(Nodes), held, Held, path, x)
    {
    }

    // Walks down to the place of a set: an inner node with a bit at which all that it holds differs from the set,
    // or a leaf.
    method FindPlace(newSet: Vertical) returns (current: Node, setBit: nat, ghost path: seq<Node>)
      requires Valid() && root != null
      ensures current in Nodes && path != [] && path[|path| - 1] == current && current in Held
      ensures Descends(TreeOf(Nodes), root, Held, path, newSet, 0)
      ensures !current.IsLeaf() ==> newSet !in Contents()
      ensures !current.IsLeaf() ==>
        forall y :: y in Held[current] ==> AgreeBelow(newSet, y, setBit) && (setBit in y) != (setBit in newSet)
    {
      hide IsTree, IsPath, Follows, TreeOf, Descends, AgreeBelow;
      ghost var tree := TreeOf(Nodes);
      NodesAreKeys();
      TreeKeysAre(Nodes);
      TreeKeys(tree, root, Held, {});
      current := root;
      var prevNodeBit: nat := 0;
      var currNodeBit := current.bit;
      setBit, path := 0, [root];
      DescendStart(tree, root, Held, newSet);
      while !current.IsLeaf()
        invariant current in Nodes && current in Held
        invariant path != [] && path[|path| - 1] == current && currNodeBit == current.bit
        invariant Descends(tree, root, Held, path, newSet, prevNodeBit)
        decreases Held[current]
      {
        LeafInTree(current);
        setBit := prevNodeBit;
        while setBit < currNodeBit
          invariant prevNodeBit <= setBit
          invariant forall c :: prevNodeBit <= c < setBit && c < currNodeBit ==> (c in newSet <==> c in current.unionSet)
        {
          if (setBit in newSet) != (setBit in current.unionSet) {
            DiffersHere(tree, root, Held, path, newSet, prevNodeBit, setBit);
            DescendAnyBit(tree, root, Held, path, newSet, prevNodeBit);
            return;
          }
          setBit := setBit + 1;
        }
        DescendStep(tree, root, Held, path, newSet, prevNodeBit);
        current := if currNodeBit in newSet then current.right else current.left;
        path := path + [current];
        prevNodeBit, currNodeBit := currNodeBit + 1, current.bit;
      }
      DescendAnyBit(tree, root, Held, path, newSet, prevNodeBit);
    }

    // Adds a set unless it is there: below an inner node when it differs above the node's bit, else at a leaf.
    method Add(newSet: Vertical) returns (added: bool)
      requires Valid() && newSet <= UpTo(numberOfAttributes)
      modifies Repr()
      ensures Valid() && fresh(Repr() - old(Repr()))
      ensures Contents() == old(Contents()) + {newSet} && (added <==> newSet !in old(Contents()))
    {
      hide IsTree, IsPath, Follows, TreeOf, AgreeBelow;
      if root == null {
        AddFirst(newSet);
        return true;
      }
      var current, setBit;
      ghost var path;
      current, setBit, path := FindPlace(newSet);
      if current.IsLeaf() {
        added := AddAtLeaf(current, newSet, path);
        return;
      }
      ghost var before := Held[root];
      InsertLeafIntoMiddle(current, newSet, setBit, path);
      OneMore(before, newSet);
      cardinality := cardinality + 1;
      added := true;
    }

    method AddFirst(newSet: Vertical)
      requires Valid() && newSet <= UpTo(numberOfAttributes) && root == null
      modifies this
      ensures Valid() && fresh(Repr() - old(Repr())) && old(Contents()) == {} && Contents() == {newSet}
    {
      var leaf := new Node(FindFrom(newSet, 0, numberOfAttributes), newSet, {}, {}, null, null, null);
      root := leaf;
      Nodes, Held := {leaf}, map[leaf := {newSet}];
      cardinality := cardinality + 1;
    }

    method AddAtLeaf(current: Node, newSet: Vertical, ghost path: seq<Node>) returns (added: bool)
      requires Valid() && newSet <= UpTo(numberOfAttributes) && root != null && current in Nodes && current.IsLeaf()
      requires path != [] && path[|path| - 1] == current && Descends(TreeOf(Nodes), root, Held, path, newSet, 0)
      modifies Repr()
      ensures Valid() && fresh(Repr() - old(Repr()))
      ensures Contents() == old(Contents()) + {newSet} && (added <==> newSet !in old(Contents()))
    {
      hide IsTree, IsPath, Follows, TreeOf, AgreeBelow;
      ghost var tree, held := TreeOf(Nodes), Held;
      LeafInTree(current);
      LeafHolds(tree, root, held, current);
      TreeKeys(tree, root, held, {});
      PathHolds(tree, root, held, path);
      var nodeBit, setBit := FindNodeAndSetBits(current.nodeSet, newSet, numberOfAttributes);
      if nodeBit == setBit {
        return false;
      }
      InsertLeafIntoEnd(current, newSet, nodeBit, setBit, path);
      OneMore(held[root], newSet);
      cardinality := cardinality + 1;
      added := true;
    }

    // The leaf of a set, or null; the recorded unions and intersections allow to give up early.
    method FindNode(wanted: Vertical) returns (node: Node?, ghost path: seq<Node>)
      requires Valid() && root != null
      ensures node == null <==> wanted !in Contents()
      ensures node != null ==>
        && node in Nodes && node.IsLeaf() && node.nodeSet == wanted && path != [] && path[|path| - 1] == node
        && IsPath(TreeOf(Nodes), root, path) && Follows(TreeOf(Nodes), Held, path, wanted)
    {
      hide IsTree, IsPath, Follows, TreeOf, TakesSides, HasSums;
      ghost var tree := TreeOf(Nodes);
      NodesAreKeys();
      TreeKeysAre(Nodes);
      TreeKeys(tree, root, Held, {});
      var current: Node := root;
      path := [root];
      SidesStart(tree, root, Held, wanted);
      while !current.IsLeaf()
        invariant current in Nodes && current in Held && path != [] && path[|path| - 1] == current
        invariant IsPath(tree, root, path) && TakesSides(tree, path, wanted)
        invariant wanted in Held[root] ==> wanted in Held[current]
        decreases Held[current]
      {
        LeafInTree(current);
        TreeMeans(tree, root, Held, {}, current);
        if !(wanted <= current.unionSet && current.interSet <= wanted) {
          NotWithinSums(tree, Held, current, wanted);
          node := null;
          return;
        }
        SidesStep(tree, root, Held, path, wanted);
        current := if current.bit in wanted then current.right else current.left;
        path := path + [current];
      }
      LeafInTree(current);
      LeafHolds(tree, root, Held, current);
      PathHolds(tree, root, Held, path);
      if current.nodeSet != wanted {
        node := null;
        return;
      }
      node := current;
      FollowsWhenHeld(tree, root, Held, path, wanted);
    }

    method Remove(unwanted: Vertical) returns (removed: bool)
      requires Valid()
      modifies Repr()
      ensures Valid() && fresh(Repr() - old(Repr()))
      ensures Contents() == old(Contents()) - {unwanted} && (removed <==> unwanted in old(Contents()))
    {
      hide IsTree, IsPath, Follows, TreeOf;
      if root == null {
        return false;
      }
      var nodeToRemove;
      ghost var path;
      nodeToRemove, path := FindNode(unwanted);
      if nodeToRemove == null {
        return false;
      }
      RootHeld();
      ghost var before := Contents();
      CutLeaf(nodeToRemove, path);
      OneLess(before, unwanted);
      cardinality := cardinality - 1;
      removed := true;
    }

    lemma RootHeld()
      requires IsTree(TreeOf(Nodes), root, Held, {})
      ensures root != null ==> root in Held
    {
      TreeKeys(TreeOf(Nodes), root, Held, {});
    }

    // Collects the sets below a node that are subsets of bound; a consumer that stops does so at the first one.
    method CollectSubsets(bound: Vertical, current: Node, stops: bool, goFurther: bool)
      returns (collected: seq<Vertical>, goOn: bool)
      requires IsTree(TreeOf(Nodes), root, Held, {}) && current in Nodes && current in Held
      ensures !stops ==> goOn == goFurther
      ensures !stops && goFurther ==> ListsSets(collected, SubsetsOf(Held[current], bound))
      ensures stops ==> (goOn <==> goFurther && SubsetsOf(Held[current], bound) == {})
      decreases Held[current]
    {
      hide IsTree, TreeOf, ListsSets, HasSums, SubsetsOf;
      LeafInTree(current);
      NodesAreKeys();
      TreeMeans(TreeOf(Nodes), root, Held, {}, current);
      collected, goOn := [], goFurther;
      if current.IsLeaf() {
        SubsetsOfOne(current.nodeSet, bound);
        if current.nodeSet <= bound {
          collected := [current.nodeSet];
          goOn := goOn && !stops;
        }
        return;
      }
      ChildrenInNodes(current);
      SubsetsOfSplit(Held[current.left], Held[current.right], current.bit, bound);
      NothingListed();
      if goFurther && current.interSet <= bound {
        collected, goOn := CollectSubsets(bound, current.left, stops, goOn);
        if current.bit in bound {
          var more;
          more, goOn := CollectSubsets(bound, current.right, stops, goOn);
          if !stops {
            ListsMore(collected, more, Held[current.left], Held[current.right], current.bit, bound);
          }
          collected := collected + more;
        }
      } else if goFurther {
        NoSubsets(TreeOf(Nodes), Held, current, bound);
      }
    }

    lemma ChildrenInNodes(n: Node)
      requires IsTree(TreeOf(Nodes), root, Held, {}) && n in Nodes && !n.IsLeaf()
      ensures n.left != null && n.right != null && n.left in Nodes && n.right in Nodes
      ensures n in Held && n.left in Held && n.right in Held && Held[n] == Held[n.left] + Held[n.right]
      ensures SplitBy(Held[n.left], Held[n.right], n.bit) && Held[n.left] < Held[n] && Held[n.right] < Held[n]
    {
      TreeMeans(TreeOf(Nodes), root, Held, {}, n);
      TreeMeans(TreeOf(Nodes), root, Held, {}, n.left);
      TreeMeans(TreeOf(Nodes), root, Held, {}, n.right);
      ProperSide(Held[n.left], Held[n.right], n.bit, {}, 0);
    }

    // All stored subsets, each once.
    method ForEachSubset(bound: Vertical) returns (subsets: seq<Vertical>)
      requires Valid()
      ensures ListsSets(subsets, SubsetsOf(Contents(), bound))
    {
      hide IsTree, TreeOf, ListsSets;
      subsets := [];
      NothingListed();
      assert Contents() == {} ==> SubsetsOf(Contents(), bound) == {};
      RootHeld();
      if root != null {
        NodesAreKeys();
        var goFurther := true;
        subsets, goFurther := CollectSubsets(bound, root, false, goFurther);
      }
    }

    method ContainsAnySubsetOf(bound: Vertical) returns (contains: bool)
      requires Valid()
      ensures contains <==> exists x :: x in Contents() && x <= bound
    {
      hide IsTree, TreeOf;
      var goFurther := true;
      RootHeld();
      if root != null {
        NodesAreKeys();
        var collected;
        collected, goFurther := CollectSubsets(bound, root, true, goFurther);
        AnySubset(Contents(), bound);
      }
      contains := !goFurther;
    }

    // All stored sets below a node, each once.
    method ForEachBelow(current: Node) returns (collected: seq<Vertical>)
      requires IsTree(TreeOf(Nodes), root, Held, {}) && current in Nodes && current in Held
      ensures ListsSets(collected, Held[current])
      decreases Held[current]
    {
      hide IsTree, TreeOf, HasSums;
      LeafInTree(current);
      NodesAreKeys();
      TreeMeans(TreeOf(Nodes), root, Held, {}, current);
      if current.IsLeaf() {
        return [current.nodeSet];
      }
      ChildrenInNodes(current);
      var low := ForEachBelow(current.left);
      var high := ForEachBelow(current.right);
      collected := low + high;
      ListsBoth(low, high, Held[current.left], Held[current.right], current.bit);
    }

    method ForEach() returns (collected: seq<Vertical>)
      requires Valid()
      ensures ListsSets(collected, Contents())
    {
      hide IsTree, TreeOf;
      collected := [];
      RootHeld();
      if root != null {
        NodesAreKeys();
        collected := ForEachBelow(root);
      }
    }

    // A tree with the single columns of a set.
    constructor Singletons(attributes: Vertical, numberOfAttributes: nat)
      requires attributes <= UpTo(numberOfAttributes)
      ensures Valid() && fresh(Repr()) && this.numberOfAttributes == numberOfAttributes
      ensures Contents() == SinglesBelow(attributes, numberOfAttributes)
    {
      this.numberOfAttributes, cardinality, root := numberOfAttributes, 0, null;
      Nodes, Held := {}, map[];
      new;
      EmptyTree();
      CreateSingleElementSets(attributes);
    }

    method CreateSingleElementSets(attributes: Vertical)
      requires Valid() && Contents() == {} && attributes <= UpTo(numberOfAttributes)
      modifies Repr()
      ensures Valid() && fresh(Repr() - old(Repr())) && Contents() == SinglesBelow(attributes, numberOfAttributes)
    {
      hide Valid, Contents, SinglesBelow;
      var bit := FindFrom(attributes, 0, numberOfAttributes);
      NoSingles(attributes, bit);
      while bit < numberOfAttributes
        invariant bit <= numberOfAttributes && (bit < numberOfAttributes ==> bit in attributes)
        invariant Valid() && fresh(Repr() - old(Repr())) && Contents() == SinglesBelow(attributes, bit)
        decreases numberOfAttributes - bit
      {
        var next := FindNext(attributes, bit, numberOfAttributes);
        NextSingleton(attributes, bit, next);
        var _ := Add({bit});
        bit := next;
      }
    }

    lemma NodesAreKeys()
      requires IsTree(TreeOf(Nodes), root, Held, {})
      ensures Nodes == Held.Keys
    {
      assert TreeOf(Nodes).Keys == Nodes;
    }

    lemma LeafInTree(n: Node)
      requires n in Nodes
      ensures n in TreeOf(Nodes) && TreeOf(Nodes)[n] == n.Fields()
    {
    }

    // An inner node has two different subtrees.
    lemma InnerInTree(n: Node)
      requires IsTree(TreeOf(Nodes), root, Held, {}) && n in Nodes && !n.IsLeaf()
      ensures n in TreeOf(Nodes) && TreeOf(Nodes)[n] == n.Fields()
      ensures n.left != null && n.right != null && n.left in Nodes && n.right in Nodes
      ensures n.left != n.right && n.left != n && n.right != n
    {
      TreeMeans(TreeOf(Nodes), root, Held, {}, n);
    }

    lemma InNodes(path: seq<Node>)
      ensures (forall n :: n in path ==> n in TreeOf(Nodes) && !TreeOf(Nodes)[n].IsLeaf()) ==>
        forall n :: n in path ==> n in Nodes && !n.IsLeaf()
    {
      assert forall n :: n in Nodes ==> TreeOf(Nodes)[n].IsLeaf() == n.IsLeaf();
    }
  }

  lemma TreeKeysAre(nodes: set<Node>)
    ensures TreeOf(nodes).Keys == nodes
  {
  }

  lemma SwapUpdates(tree: Tree, n: Node, l: Node, r: Node, v: NodeFields, vl: NodeFields, vr: NodeFields)
    requires n != l && n != r
    ensures tree[l := vl][r := vr][n := v] == tree[n := v][l := vl][r := vr]
  {
  }

  lemma TreeOfMore(nodes: set<Node>, a: Node, b: Node) returns (more: Tree)
    ensures more == TreeOf(nodes)[a := a.Fields()][b := b.Fields()] && more == TreeOf(nodes + {a, b})
  {
    more := TreeOf(nodes + {a, b});
  }

  lemma RestInTree(tree: Tree, root: Node?, path: seq<Node>)
    requires IsPath(tree, root, path)
    ensures forall i :: 0 <= i < |path| ==> path[i] in tree
    ensures forall i, j :: 0 <= i < j < |path| ==> path[i] != path[j]
  {
  }

  lemma GrownRoot(held: Holding, path: seq<Node>, x: Vertical, root: Node)
    requires root in path && root in held
    ensures root in Grown(held, path, x) && Grown(held, path, x)[root] == held[root] + {x} && Grown(held, path, x).Keys == held.Keys
  {
  }

  // The path is still one when only its last node has got other children.
  lemma AfterGrowing(tree: Tree, tree': Tree, root: Node?, held: Holding, path: seq<Node>)
    requires IsTree(tree, root, held, {}) && IsPath(tree, root, path) && tree.Keys <= tree'.Keys
    requires forall n :: n in path && n != path[|path| - 1] ==> tree'[n] == tree[n]
    requires tree'[path[|path| - 1]].parent == tree[path[|path| - 1]].parent && !tree'[path[|path| - 1]].IsLeaf()
    ensures IsPath(tree', root, path) && forall n :: n in path ==> n in tree' && !tree'[n].IsLeaf()
  {
    RestInTree(tree, root, path);
    forall i | 0 <= i < |path| - 1 ensures path[i] in path && path[i] != path[|path| - 1] && !tree[path[i]].IsLeaf() {
    }
    PathKept(tree, tree', root, path, |path|);
    assert path[..|path|] == path;
  }

  lemma EndAfter(tree: Tree, tree': Tree, root: Node, held: Holding, held': Holding, path: seq<Node>, x: Vertical, d: nat,
                 oldChild: Node, leaf: Node)
    requires IsTree(tree, root, held, {}) && IsPath(tree, root, path) && GrewAtEnd(tree, tree', held, held', path, x, d, oldChild, leaf)
    ensures IsPath(tree', root, path) && forall n :: n in path ==> n in tree' && !tree'[n].IsLeaf()
    ensures root in held && root in held' && held'[root] == held[root] + {x}
  {
    hide IsTree, IsPath;
    TreeKeys(tree, root, held, {});
    PathEnds(tree, root, path);
    GrownRoot(held, path, x, root);
    AfterGrowing(tree, tree', root, held, path);
  }

  lemma MiddleAfter(tree: Tree, tree': Tree, root: Node, held: Holding, held': Holding, path: seq<Node>, x: Vertical, d: nat,
                    copy: Node, leaf: Node)
    requires IsTree(tree, root, held, {}) && IsPath(tree, root, path) && GrewInMiddle(tree, tree', held, held', path, x, d, copy, leaf)
    ensures IsPath(tree', root, path) && forall n :: n in path ==> n in tree' && !tree'[n].IsLeaf()
    ensures root in held && root in held' && held'[root] == held[root] + {x}
  {
    hide IsTree, IsPath;
    TreeKeys(tree, root, held, {});
    PathEnds(tree, root, path);
    GrownRoot(held, path, x, root);
    var cur := path[|path| - 1];
    TreeMeans(tree, root, held, {}, cur);
    ChildOnPath(tree, root, path, |path| - 1, tree[cur].left);
    ChildOnPath(tree, root, path, |path| - 1, tree[cur].right);
    AfterGrowing(tree, tree', root, held, path);
  }

  lemma GrewAtEndWhen(tree: Tree, held: Holding, path: seq<Node>, x: Vertical, d: nat, oldChild: Node, leaf: Node,
                      w: NodeFields, a: NodeFields, b: NodeFields, tree': Tree, held': Holding)
    requires path != [] && path[|path| - 1] in tree && tree[path[|path| - 1]].IsLeaf()
    requires oldChild !in tree && leaf !in tree && oldChild != leaf
    requires IsNewInner(w, tree[path[|path| - 1]], d, oldChild, leaf, x)
    requires IsNewLeaf(a, tree[path[|path| - 1]].nodeSet, path[|path| - 1]) && IsNewLeaf(b, x, path[|path| - 1])
    requires tree' == tree[path[|path| - 1] := w][oldChild := a][leaf := b]
    requires held' == Grown(held, path, x)[oldChild := {tree[path[|path| - 1]].nodeSet}][leaf := {x}]
    ensures GrewAtEnd(tree, tree', held, held', path, x, d, oldChild, leaf)
  {
    hide Grown;
  }

  lemma GrewInMiddleWhen(tree: Tree, held: Holding, path: seq<Node>, x: Vertical, d: nat, copy: Node, leaf: Node,
                         w: NodeFields, b: NodeFields, tree': Tree, held': Holding)
    requires path != [] && path[|path| - 1] in tree && path[|path| - 1] in held && !tree[path[|path| - 1]].IsLeaf()
    requires var v := tree[path[|path| - 1]];
      && v.left in tree && v.right in tree && v.left != v.right
      && v.left != path[|path| - 1] && v.right != path[|path| - 1]
      && tree' == tree[path[|path| - 1] := w][v.left := tree[v.left].(parent := copy)][v.right := tree[v.right].(parent := copy)]
        [copy := v.(parent := path[|path| - 1])][leaf := b]
    requires copy !in tree && leaf !in tree && copy != leaf
    requires IsNewInner(w, tree[path[|path| - 1]], d, copy, leaf, x) && IsNewLeaf(b, x, path[|path| - 1])
    requires held' == Grown(held, path, x)[copy := held[path[|path| - 1]]][leaf := {x}]
    ensures GrewInMiddle(tree, tree', held, held', path, x, d, copy, leaf)
  {
    hide Grown;
  }

  ghost function Lessened(held: Holding, path: seq<Node>, x: Vertical, leaf: Node, q: Node): Holding {
    map n | n in held && n != leaf && n != q :: if n in path then held[n] - {x} else held[n]
  }

  lemma LeafHolds(tree: Tree, root: Node?, held: Holding, n: Node)
    requires IsTree(tree, root, held, {}) && n in tree && tree[n].IsLeaf()
    ensures n in held && held[n] == {tree[n].nodeSet}
  {
    TreeMeans(tree, root, held, {}, n);
  }

  lemma EmptyTree()
    ensures IsTree(TreeOf({}), null, map[], {})
  {
  }

  lemma OtherChildIs(tree: Tree, path: seq<Node>)
    requires |path| >= 2 && path[|path| - 2] in tree
    ensures var v := tree[path[|path| - 2]];
      OtherChild(tree, path) == if v.right == path[|path| - 1] then v.left else v.right
  {
  }

  lemma ChildrenOf(tree: Tree, root: Node?, held: Holding, path: seq<Node>, q: Node)
    requires IsTree(tree, root, held, {}) && q in tree && IsPath(tree, root, path) && q !in path
    ensures forall n :: n in tree ==> (tree[n].parent == q <==> n == tree[q].left || n == tree[q].right)
    ensures !tree[q].IsLeaf() ==>
      && tree[q].left != null && tree[q].right != null && tree[q].left in tree && tree[q].right in tree
      && tree[q].left != tree[q].right && tree[q].left != q && tree[q].right != q
      && tree[q].left !in path && tree[q].right !in path
  {
    hide IsTree, IsPath, SplitBy, UnionOf, InterOf;
    TreeMeans(tree, root, held, {}, q);
    if !tree[q].IsLeaf() {
      NoChildOnPath(tree, root, path, q, tree[q].left);
      NoChildOnPath(tree, root, path, q, tree[q].right);
    }
    forall n | n in tree ensures tree[n].parent == q <==> n == tree[q].left || n == tree[q].right {
      TreeMeans(tree, root, held, {}, n);
    }
  }

  lemma ShrankPath(tree: Tree, tree': Tree, root: Node?, held: Holding, held': Holding, path: seq<Node>, x: Vertical)
    requires IsTree(tree, root, held, {}) && IsPath(tree, root, path) && |path| >= 2 && path[|path| - 2] in tree
    requires Follows(tree, held, path, x)
    requires path[|path| - 1] in tree && tree[path[|path| - 1]].IsLeaf() && tree[path[|path| - 1]].nodeSet == x
    requires Shrank(tree, tree', held, held', path, x)
    ensures path[|path| - 2] in tree' && tree'[path[|path| - 2]].parent == (if |path| == 2 then null else path[|path| - 3])
    ensures |path| > 2 ==> IsPath(tree', root, path[..|path| - 2])
    ensures forall n :: n in path[..|path| - 2] ==> n in tree' && !tree'[n].IsLeaf()
    ensures root != null && root in held && root in held' && held'[root] == held[root] - {x}
  {
    hide IsTree, Follows;
    LastNodes(tree, root, held, path, x);
    TreeKeys(tree, root, held, {});
    var q := OtherChild(tree, path);
    forall i | 0 <= i < |path| - 2
      ensures path[i] in tree' && tree'[path[i]] == tree[path[i]] && !tree[path[i]].IsLeaf()
    {
      PathParent(tree, root, path, i);
      PathDistinct(tree, root, path, i);
      ShrankFields(tree, tree', held, held', path, x, path[i]);
    }
    PathParent(tree, root, path, |path| - 2);
    PathParent(tree, root, path, 0);
    if |path| > 2 {
      PathKept(tree, tree', root, path, |path| - 2);
    }
  }

  lemma PrefixNodes(path: seq<Node>)
    requires |path| >= 2
    ensures OnPath(path, |path| - 2) == OnPath(path[..|path| - 2], |path[..|path| - 2]|)
    ensures |path| > 2 ==> path[..|path| - 2][|path[..|path| - 2]| - 1] == path[|path| - 3]
  {
    var rest := path[..|path| - 2];
    assert rest[..|rest|] == rest;
  }

  // The walk down for a set: it agrees with what the last node holds below a bit, and is stored there or nowhere.
  ghost predicate Descends(tree: Tree, root: Node?, held: Holding, path: seq<Node>, x: Vertical, bit: nat) {
    && path != [] && IsTree(tree, root, held, {}) && IsPath(tree, root, path) && Follows(tree, held, path, x)
    && path[|path| - 1] in held && root != null && root in held
    && (forall y :: y in held[path[|path| - 1]] ==> AgreeBelow(x, y, bit))
    && (x in held[root] ==> x in held[path[|path| - 1]])
  }

  lemma DescendAnyBit(tree: Tree, root: Node?, held: Holding, path: seq<Node>, x: Vertical, bit: nat)
    requires Descends(tree, root, held, path, x, bit)
    ensures Descends(tree, root, held, path, x, 0)
  {
    hide IsTree, IsPath, Follows;
  }

  lemma DescendStart(tree: Tree, root: Node, held: Holding, x: Vertical)
    requires IsTree(tree, root, held, {})
    ensures Descends(tree, root, held, [root], x, 0)
  {
    hide IsTree;
    TreeKeys(tree, root, held, {});
    PathStart(tree, root, held, x);
  }

  // Past the bit of a node: the set agrees with the members up to it.
  lemma DescendStep(tree: Tree, root: Node, held: Holding, path: seq<Node>, x: Vertical, bit: nat)
    requires Descends(tree, root, held, path, x, bit) && path[|path| - 1] in tree && !tree[path[|path| - 1]].IsLeaf()
    requires var v := tree[path[|path| - 1]]; forall c :: bit <= c < v.bit ==> (c in x <==> c in v.unionSet)
    ensures var v := tree[path[|path| - 1]];
      var next := if v.bit in x then v.right else v.left;
      && next != null && next in tree && next in held && held[next] < held[path[|path| - 1]] && bit <= v.bit
      && Descends(tree, root, held, path + [next], x, v.bit + 1)
  {
    hide IsTree, IsPath, Follows, UnionOf, InterOf, AgreeBelow;
    var n := path[|path| - 1];
    var v := tree[n];
    TreeMeans(tree, root, held, {}, n);
    forall y | y in held[n] ensures AgreeBelow(x, y, v.bit) {
      AgreesUpTo(tree, held, n, x, y, bit);
    }
    var next := if v.bit in x then v.right else v.left;
    PathStep(tree, root, held, path, x, next);
    TreeMeans(tree, root, held, {}, v.left);
    TreeMeans(tree, root, held, {}, v.right);
    forall y | y in held[next] ensures AgreeBelow(x, y, v.bit + 1) {
      AgreesAt(x, y, v.bit);
    }
    ProperSide(held[v.left], held[v.right], v.bit, x, bit);
  }

  lemma AgreesAt(x: Vertical, y: Vertical, bit: nat)
    requires AgreeBelow(x, y, bit) && (bit in x <==> bit in y)
    ensures AgreeBelow(x, y, bit + 1)
  {
  }

  lemma AgreesUpTo(tree: Tree, held: Holding, n: Node, x: Vertical, y: Vertical, bit: nat)
    requires n in tree && n in held && !tree[n].IsLeaf() && HasShape(tree, held, n) && HasSums(tree, held, n)
    requires y in held[n] && AgreeBelow(x, y, bit)
    requires forall c :: bit <= c < tree[n].bit ==> (c in x <==> c in tree[n].unionSet)
    ensures AgreeBelow(x, y, tree[n].bit)
  {
    forall c: nat | c < tree[n].bit ensures c in x <==> c in y {
      UnionBelowBit(tree, held, n, y, c);
    }
  }

  // Both sides hold something, and the bit cannot be one below which all members agree.
  lemma ProperSide(low: set<Vertical>, high: set<Vertical>, d: nat, x: Vertical, bit: nat)
    requires SplitBy(low, high, d) && low != {} && high != {}
    requires forall y :: y in low + high ==> AgreeBelow(x, y, bit)
    ensures low < low + high && high < low + high && bit <= d
  {
    var y :| y in low;
    var z :| z in high;
    assert d !in y && d in z;
    assert y !in high && z !in low;
    assert AgreeBelow(x, y, bit) && AgreeBelow(x, z, bit);
  }

  // The set differs from all members at a bit above the node's own.
  lemma DiffersHere(tree: Tree, root: Node, held: Holding, path: seq<Node>, x: Vertical, bit: nat, setBit: nat)
    requires Descends(tree, root, held, path, x, bit) && path[|path| - 1] in tree && !tree[path[|path| - 1]].IsLeaf()
    requires bit <= setBit < tree[path[|path| - 1]].bit
    requires forall c :: bit <= c < setBit ==> (c in x <==> c in tree[path[|path| - 1]].unionSet)
    requires (setBit in x) != (setBit in tree[path[|path| - 1]].unionSet)
    ensures forall y :: y in held[path[|path| - 1]] ==> AgreeBelow(x, y, setBit) && (setBit in y) != (setBit in x)
    ensures x !in held[root]
  {
    hide IsTree, IsPath, Follows, UnionOf, InterOf;
    var n := path[|path| - 1];
    TreeMeans(tree, root, held, {}, n);
    forall y | y in held[n] ensures AgreeBelow(x, y, setBit) && (setBit in y) != (setBit in x) {
      UnionBelowBit(tree, held, n, y, setBit);
      assert AgreeBelow(x, y, bit);
      forall c: nat | c < setBit ensures c in x <==> c in y {
        UnionBelowBit(tree, held, n, y, c);
      }
    }
  }

  lemma OneMore(s: set<Vertical>, x: Vertical)
    ensures x !in s ==> |s + {x}| == |s| + 1
  {
  }

  // What the last node of a path holds the root holds, too.
  lemma {:induction false} PathHolds(tree: Tree, root: Node?, held: Holding, path: seq<Node>)
    requires IsTree(tree, root, held, {}) && IsPath(tree, root, path)
    ensures path != [] && path[|path| - 1] in held && root != null && root in held && held[path[|path| - 1]] <= held[root]
    decreases |path|
  {
    hide IsTree, SplitBy;
    PathParent(tree, root, path, |path| - 1);
    PathParent(tree, root, path, 0);
    TreeKeys(tree, root, held, {});
    if |path| > 1 {
      PathKept(tree, tree, root, path, |path| - 1);
      PathHolds(tree, root, held, path[..|path| - 1]);
      TreeMeans(tree, root, held, {}, path[|path| - 2]);
      TreeMeans(tree, root, held, {}, path[|path| - 1]);
    }
  }

  // ----- searching -----

  ghost predicate TakesSides(tree: Tree, path: seq<Node>, x: Vertical) {
    forall i :: 0 <= i < |path| - 1 ==>
      path[i] in tree && path[i + 1] == if tree[path[i]].bit in x then tree[path[i]].right else tree[path[i]].left
  }

  lemma SidesStart(tree: Tree, root: Node, held: Holding, x: Vertical)
    requires IsTree(tree, root, held, {})
    ensures IsPath(tree, root, [root]) && TakesSides(tree, [root], x)
  {
    hide IsTree;
    PathStart(tree, root, held, x);
  }

  lemma SidesStep(tree: Tree, root: Node, held: Holding, path: seq<Node>, x: Vertical)
    requires IsTree(tree, root, held, {}) && IsPath(tree, root, path) && TakesSides(tree, path, x)
    requires path != [] && path[|path| - 1] in tree && !tree[path[|path| - 1]].IsLeaf()
    ensures var n, v := path[|path| - 1], tree[path[|path| - 1]];
      var next := if v.bit in x then v.right else v.left;
      && next != null && next in tree && n in held && next in held && held[next] < held[n]
      && IsPath(tree, root, path + [next]) && TakesSides(tree, path + [next], x)
      && (x in held[n] ==> x in held[next])
  {
    hide IsTree, IsPath, UnionOf, InterOf, SplitBy;
    var n, v := path[|path| - 1], tree[path[|path| - 1]];
    TreeMeans(tree, root, held, {}, n);
    var next := if v.bit in x then v.right else v.left;
    TreeMeans(tree, root, held, {}, v.left);
    TreeMeans(tree, root, held, {}, v.right);
    ProperSide(held[v.left], held[v.right], v.bit, {}, 0) by {
      assert forall y: Vertical :: AgreeBelow({}, y, 0);
    }
    SideOf(held[v.left], held[v.right], v.bit, x);
    ChildOnPath(tree, root, path, |path| - 1, next);
    ExtendPath(tree, root, path, next);
  }

  lemma NotWithinSums(tree: Tree, held: Holding, n: Node, x: Vertical)
    requires n in tree && n in held && !tree[n].IsLeaf() && HasSums(tree, held, n)
    requires !(x <= tree[n].unionSet && tree[n].interSet <= x)
    ensures x !in held[n]
  {
    if x in held[n] {
      SumsBound(tree, held, n, x);
    }
  }

  // A path to the leaf of a set follows the set.
  lemma FollowsWhenHeld(tree: Tree, root: Node?, held: Holding, path: seq<Node>, x: Vertical)
    requires IsTree(tree, root, held, {}) && IsPath(tree, root, path) && TakesSides(tree, path, x)
    requires path[|path| - 1] in held && x in held[path[|path| - 1]]
    ensures Follows(tree, held, path, x)
  {
    hide IsTree, AgreeBelow, UnionOf, InterOf;
    TreeKeys(tree, root, held, {});
    forall i, y | 0 <= i < |path| - 1 && path[i] in held && y in held[path[i]] ensures AgreeBelow(x, y, tree[path[i]].bit) {
      HoldsAlong(tree, root, held, path, i);
      TreeMeans(tree, root, held, {}, path[i]);
    }
  }

  lemma {:induction false} HoldsAlong(tree: Tree, root: Node?, held: Holding, path: seq<Node>, i: nat)
    requires IsTree(tree, root, held, {}) && IsPath(tree, root, path) && i < |path|
    ensures path[i] in held && path[|path| - 1] in held && held[path[|path| - 1]] <= held[path[i]]
    decreases |path| - i
  {
    hide IsTree, SplitBy;
    TreeKeys(tree, root, held, {});
    PathParent(tree, root, path, i);
    PathParent(tree, root, path, |path| - 1);
    if i < |path| - 1 {
      HoldsAlong(tree, root, held, path, i + 1);
      PathParent(tree, root, path, i + 1);
      TreeMeans(tree, root, held, {}, path[i]);
      TreeMeans(tree, root, held, {}, path[i + 1]);
    }
  }

  lemma OneLess(s: set<Vertical>, x: Vertical)
    ensures x in s ==> |s - {x}| == |s| - 1
  {
  }

  // ----- collecting -----

  ghost function SubsetsOf(family: set<Vertical>, bound: Vertical): set<Vertical> {
    set x | x in family && x <= bound
  }

  ghost predicate ListsSets(list: seq<Vertical>, family: set<Vertical>) {
    NoDuplicates(list) && forall x :: x in list <==> x in family
  }

  lemma NothingListed()
    ensures ListsSets([], {})
  {
  }

  lemma SubsetsOfOne(x: Vertical, bound: Vertical)
    ensures SubsetsOf({x}, bound) == if x <= bound then {x} else {}
    ensures ListsSets(if x <= bound then [x] else [], SubsetsOf({x}, bound))
  {
  }

  // A subset of a bound without the bit is found on the low side.
  lemma SubsetsOfSplit(low: set<Vertical>, high: set<Vertical>, bit: nat, bound: Vertical)
    requires SplitBy(low, high, bit)
    ensures SubsetsOf(low + high, bound) == SubsetsOf(low, bound) + SubsetsOf(high, bound)
    ensures bit !in bound ==> SubsetsOf(low + high, bound) == SubsetsOf(low, bound)
  {
  }

  lemma ListsBoth(p: seq<Vertical>, q: seq<Vertical>, low: set<Vertical>, high: set<Vertical>, bit: nat)
    requires SplitBy(low, high, bit) && ListsSets(p, low) && ListsSets(q, high)
    ensures ListsSets(p + q, low + high)
  {
    forall i, j | 0 <= i < |p| && 0 <= j < |q| ensures p[i] != q[j] {
      assert p[i] in p && q[j] in q;
    }
  }

  lemma ListsMore(p: seq<Vertical>, q: seq<Vertical>, low: set<Vertical>, high: set<Vertical>, bit: nat, bound: Vertical)
    requires SplitBy(low, high, bit) && ListsSets(p, SubsetsOf(low, bound)) && ListsSets(q, SubsetsOf(high, bound))
    ensures ListsSets(p + q, SubsetsOf(low + high, bound))
  {
    hide ListsSets;
    SubsetsOfSplit(low, high, bit, bound);
    ListsBoth(p, q, SubsetsOf(low, bound), SubsetsOf(high, bound), bit);
  }

  // The recorded intersection rules out all members at once.
  lemma NoSubsets(tree: Tree, held: Holding, n: Node, bound: Vertical)
    requires n in tree && n in held && !tree[n].IsLeaf() && HasSums(tree, held, n) && !(tree[n].interSet <= bound)
    ensures SubsetsOf(held[n], bound) == {}
  {
    forall x | x in held[n] ensures !(x <= bound) {
      SumsBound(tree, held, n, x);
    }
  }

  lemma AnySubset(family: set<Vertical>, bound: Vertical)
    ensures SubsetsOf(family, bound) == {} <==> !exists x :: x in family && x <= bound
  {
    if x :| x in family && x <= bound {
      assert x in SubsetsOf(family, bound);
    }
  }

  ghost function SinglesBelow(attributes: Vertical, bound: nat): set<Vertical> {
    set c | c in attributes && c < bound :: {c}
  }

  lemma NoSingles(attributes: Vertical, bound: nat)
    requires forall c :: c in attributes ==> c >= bound
    ensures SinglesBelow(attributes, bound) == {}
  {
  }

  lemma NextSingleton(attributes: Vertical, bit: nat, next: nat)
    requires bit in attributes && bit < next && forall c :: c in attributes && c > bit ==> c >= next
    ensures SinglesBelow(attributes, next) == SinglesBelow(attributes, bit) + {{bit}}
  {
    var before, after := SinglesBelow(attributes, bit), SinglesBelow(attributes, next);
    forall x ensures x in after <==> x in before + {{bit}} {
      if x in before {
        var c :| c in attributes && c < bit && x == {c};
        assert c < next;
      }
      if x in after {
        var c :| c in attributes && c < next && x == {c};
        assert c < bit || c == bit;
      }
    }
  }
}
