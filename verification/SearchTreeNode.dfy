// The crit-bit search tree by value: a finite map from nodes to their fields, and what the nodes hold.
module SearchTreeNodes {
  import opened Relations

  class Node {
    var bit: nat
    var nodeSet: Vertical
    var unionSet: Vertical
    var interSet: Vertical
    var left: Node?
    var right: Node?
    var parent: Node?

    constructor (bit: nat, nodeSet: Vertical, unionSet: Vertical, interSet: Vertical, parent: Node?, left: Node?, right: Node?)
      ensures Fields() == NodeFields(bit, nodeSet, unionSet, interSet, left, right, parent)
    {
      this.bit, this.nodeSet, this.unionSet, this.interSet := bit, nodeSet, unionSet, interSet;
      this.parent, this.left, this.right := parent, left, right;
    }

    predicate IsLeaf()
      reads this
    {
      left == null && right == null
    }

    function GetUnion(): Vertical
      reads this
    {
      if IsLeaf() then nodeSet else unionSet
    }

    function GetInter(): Vertical
      reads this
    {
      if IsLeaf() then nodeSet else interSet
    }

    ghost function Fields(): NodeFields
      reads this
    {
      NodeFields(bit, nodeSet, unionSet, interSet, left, right, parent)
    }
  }

  datatype NodeFields = NodeFields(bit: nat, nodeSet: Vertical, unionSet: Vertical, interSet: Vertical,
                                   left: Node?, right: Node?, parent: Node?) {
    predicate IsLeaf() {
      left == null && right == null
    }
  }

  type Tree = map<Node, NodeFields>

  type Holding = map<Node, set<Vertical>>

  ghost function TreeOf(nodes: set<Node>): Tree
    reads nodes
  {
    map n | n in nodes :: n.Fields()
  }

  // ----- unions and intersections -----

  ghost function UnionOf(family: set<Vertical>): Vertical {
    set x, c | x in family && c in x :: c
  }

  ghost function InterOf(family: set<Vertical>): Vertical {
    set c | c in UnionOf(family) && forall x :: x in family ==> c in x
  }

  lemma UnionOfSum(f: set<Vertical>, g: set<Vertical>)
    requires f != {} && g != {}
    ensures UnionOf(f + g) == UnionOf(f) + UnionOf(g)
    ensures InterOf(f + g) == InterOf(f) * InterOf(g)
  {
    forall c ensures c in UnionOf(f + g) <==> c in UnionOf(f) + UnionOf(g) {
    }
    forall c | c in InterOf(f + g) ensures c in InterOf(f) && c in InterOf(g) {
      var x :| x in f;
      var y :| y in g;
      assert c in x && c in y;
    }
  }

  lemma UnionOfOne(x: Vertical)
    ensures UnionOf({x}) == x && InterOf({x}) == x
  {
  }

  lemma Between(family: set<Vertical>, x: Vertical)
    requires x in family
    ensures InterOf(family) <= x <= UnionOf(family)
  {
  }

  // ----- well-formed trees -----

  ghost predicate AgreeBelow(x: Vertical, y: Vertical, bit: nat) {
    forall c: nat :: c < bit ==> (c in x <==> c in y)
  }

  // The members split by a bit and do not differ below it.
  ghost predicate SplitBy(low: set<Vertical>, high: set<Vertical>, bit: nat) {
    && (forall x :: x in low ==> bit !in x)
    && (forall x :: x in high ==> bit in x)
    && (forall x, y :: x in low + high && y in low + high ==> AgreeBelow(x, y, bit))
  }

  ghost predicate IsInner(tree: Tree, held: Holding, n: Node)
    requires n in tree && n in held
  {
    var v := tree[n];
    && v.left != null && v.right != null && v.left != v.right && v.left != n && v.right != n
    && v.left in tree && v.right in tree && v.left in held && v.right in held
    && tree[v.left].parent == n && tree[v.right].parent == n
    && held[n] == held[v.left] + held[v.right] && SplitBy(held[v.left], held[v.right], v.bit)
  }

  ghost predicate HasShape(tree: Tree, held: Holding, n: Node)
    requires n in tree && n in held
  {
    && held[n] != {}
    && if tree[n].IsLeaf() then held[n] == {tree[n].nodeSet} else IsInner(tree, held, n)
  }

  // An inner node knows the union and the intersection of what it holds.
  ghost predicate HasSums(tree: Tree, held: Holding, n: Node)
    requires n in tree && n in held
  {
    !tree[n].IsLeaf() ==> tree[n].unionSet == UnionOf(held[n]) && tree[n].interSet == InterOf(held[n])
  }

  ghost predicate HasPlace(tree: Tree, root: Node?, n: Node)
    requires n in tree
  {
    var p := tree[n].parent;
    if n == root then p == null else p != null && p in tree && (tree[p].left == n || tree[p].right == n)
  }

  // All nodes have their shape and place; the sums of the nodes in stale are still to be computed.
  ghost predicate IsTree(tree: Tree, root: Node?, held: Holding, stale: set<Node>) {
    && tree.Keys == held.Keys
    && (root == null ==> tree == map[])
    && (root != null ==> root in tree)
    && (forall n {:trigger HasShape(tree, held, n)} {:trigger HasPlace(tree, root, n)} ::
          n in tree ==> HasShape(tree, held, n) && HasPlace(tree, root, n))
    && (forall n {:trigger HasSums(tree, held, n)} :: n in tree && n !in stale ==> HasSums(tree, held, n))
  }

  lemma TreeMeans(tree: Tree, root: Node?, held: Holding, stale: set<Node>, n: Node)
    requires IsTree(tree, root, held, stale) && n in tree
    ensures n in held && HasShape(tree, held, n) && HasPlace(tree, root, n)
    ensures n !in stale ==> HasSums(tree, held, n)
  {
  }

  // What the recorded sums of a node say about its members.
  lemma SumsBound(tree: Tree, held: Holding, n: Node, x: Vertical)
    requires n in tree && n in held && !tree[n].IsLeaf() && HasSums(tree, held, n) && x in held[n]
    ensures tree[n].interSet <= x <= tree[n].unionSet
  {
    Between(held[n], x);
  }

  // Below its bit a node's members are all like its recorded union.
  lemma UnionBelowBit(tree: Tree, held: Holding, n: Node, x: Vertical, c: nat)
    requires n in tree && n in held && !tree[n].IsLeaf() && HasShape(tree, held, n) && HasSums(tree, held, n)
    requires x in held[n] && c < tree[n].bit
    ensures c in tree[n].unionSet <==> c in x
  {
    if c in tree[n].unionSet {
      var y :| y in held[n] && c in y;
      assert AgreeBelow(x, y, tree[n].bit);
    }
  }

  // ----- paths from the root -----

  // path leads from the root down to its last node.
  ghost predicate IsPath(tree: Tree, root: Node?, path: seq<Node>) {
    && path != [] && NoDuplicates(path) && path[0] == root
    && (forall i :: 0 <= i < |path| ==> path[i] in tree)
    && tree[path[0]].parent == null
    && (forall i :: 0 <= i < |path| - 1 ==>
          && !tree[path[i]].IsLeaf() && tree[path[i + 1]].parent == path[i]
          && (tree[path[i]].left == path[i + 1] || tree[path[i]].right == path[i + 1]))
  }

  // The path takes the sides of x, and x does not differ from the members above the bits on the path.
  ghost predicate Follows(tree: Tree, held: Holding, path: seq<Node>, x: Vertical) {
    && (forall i :: 0 <= i < |path| - 1 ==> path[i] in tree && path[i] in held)
    && (forall i :: 0 <= i < |path| - 1 ==> path[i + 1] == if tree[path[i]].bit in x then tree[path[i]].right else tree[path[i]].left)
    && (forall i, y :: 0 <= i < |path| - 1 && y in held[path[i]] ==> AgreeBelow(x, y, tree[path[i]].bit))
  }

  lemma PathStart(tree: Tree, root: Node, held: Holding, x: Vertical)
    requires IsTree(tree, root, held, {})
    ensures IsPath(tree, root, [root]) && Follows(tree, held, [root], x)
  {
    TreeMeans(tree, root, held, {}, root);
  }

  // Only the next node of the path is a child of a node on it.
  lemma ChildOnPath(tree: Tree, root: Node?, path: seq<Node>, i: nat, n: Node)
    requires IsPath(tree, root, path) && i < |path| && n in tree && tree[n].parent == path[i]
    ensures n in path <==> i + 1 < |path| && n == path[i + 1]
  {
    if n in path {
      var j :| 0 <= j < |path| && path[j] == n;
      assert j > 0;
      assert path[j - 1] == path[i];
    }
  }

  lemma PathStep(tree: Tree, root: Node?, held: Holding, path: seq<Node>, x: Vertical, next: Node)
    requires IsTree(tree, root, held, {}) && IsPath(tree, root, path) && Follows(tree, held, path, x)
    requires var v := tree[path[|path| - 1]];
      && !v.IsLeaf() && next == (if v.bit in x then v.right else v.left)
      && forall y :: y in held[path[|path| - 1]] ==> AgreeBelow(x, y, v.bit)
    ensures IsPath(tree, root, path + [next]) && Follows(tree, held, path + [next], x)
    ensures next in held && (x in held[path[|path| - 1]] ==> x in held[next])
  {
    hide IsTree, IsPath, Follows, HasPlace, HasSums, SplitBy, AgreeBelow;
    PathEnds(tree, root, path);
    TreeMeans(tree, root, held, {}, path[|path| - 1]);
    SideOf(held[tree[path[|path| - 1]].left], held[tree[path[|path| - 1]].right], tree[path[|path| - 1]].bit, x);
    ChildOnPath(tree, root, path, |path| - 1, next);
    ExtendPath(tree, root, path, next);
    ExtendFollows(tree, held, path, x, next);
  }

  lemma PathEnds(tree: Tree, root: Node?, path: seq<Node>)
    requires IsPath(tree, root, path)
    ensures path != [] && path[0] == root && root in path && path[|path| - 1] in path && forall n :: n in path ==> n in tree
  {
  }

  lemma SideOf(low: set<Vertical>, high: set<Vertical>, bit: nat, x: Vertical)
    requires SplitBy(low, high, bit)
    ensures x in low + high ==> if bit in x then x in high else x in low
  {
  }

  lemma ExtendFollows(tree: Tree, held: Holding, path: seq<Node>, x: Vertical, next: Node)
    requires Follows(tree, held, path, x) && path != [] && path[|path| - 1] in tree && path[|path| - 1] in held
    requires var v := tree[path[|path| - 1]];
      && next == (if v.bit in x then v.right else v.left)
      && forall y :: y in held[path[|path| - 1]] ==> AgreeBelow(x, y, v.bit)
    ensures Follows(tree, held, path + [next], x)
  {
    hide AgreeBelow;
    var longer := path + [next];
    assert forall i :: 0 <= i < |path| ==> longer[i] == path[i];
  }

  lemma ExtendPath(tree: Tree, root: Node?, path: seq<Node>, next: Node)
    requires IsPath(tree, root, path) && next !in path && next in tree && tree[next].parent == path[|path| - 1]
    requires var v := tree[path[|path| - 1]]; !v.IsLeaf() && (v.left == next || v.right == next)
    ensures IsPath(tree, root, path + [next])
  {
    var longer := path + [next];
    forall i, j | 0 <= i < j < |longer| ensures longer[i] != longer[j] {
      assert j == |path| ==> path[i] in path;
    }
  }

  ghost function OnPath(path: seq<Node>, i: nat): set<Node>
    requires i <= |path|
  {
    set n | n in path[..i]
  }

  // ----- adding a set -----

  // The nodes on the path hold one more set.
  ghost function Grown(held: Holding, path: seq<Node>, x: Vertical): Holding {
    map n | n in held :: if n in path then held[n] + {x} else held[n]
  }

  ghost predicate SameButParent(v: NodeFields, w: NodeFields) {
    v == w.(parent := v.parent)
  }

  // A node keeps its shape when its fields, its children's parents and all they hold are the same.
  lemma KeepsShape(tree: Tree, tree': Tree, held: Holding, held': Holding, n: Node)
    requires n in tree && n in held && HasShape(tree, held, n) && n in tree' && n in held' && held'[n] == held[n]
    requires SameButParent(tree'[n], tree[n])
    requires !tree[n].IsLeaf() ==>
      && tree[n].left in tree' && tree[n].right in tree' && tree[n].left in held' && tree[n].right in held'
      && tree'[tree[n].left].parent == n && tree'[tree[n].right].parent == n
      && held'[tree[n].left] == held[tree[n].left] && held'[tree[n].right] == held[tree[n].right]
    ensures HasShape(tree', held', n) && (HasSums(tree, held, n) ==> HasSums(tree', held', n))
  {
  }

  // The next node of the path holds one more set, and the other child what it did.
  lemma GrowsAbove(tree: Tree, tree': Tree, root: Node?, held: Holding, held': Holding, path: seq<Node>, x: Vertical, i: nat)
    requires IsTree(tree, root, held, {}) && IsPath(tree, root, path) && Follows(tree, held, path, x) && i < |path| - 1
    requires var n, v := path[i], tree[path[i]];
      && n in tree' && n in held' && tree'[n] == v && held'[n] == held[n] + {x}
      && v.left != null && v.right != null && v.left in held && v.right in held
      && v.left in tree' && v.right in tree' && v.left in held' && v.right in held'
      && tree'[v.left].parent == n && tree'[v.right].parent == n
      && held'[v.left] == (if v.left == path[i + 1] then held[v.left] + {x} else held[v.left])
      && held'[v.right] == (if v.right == path[i + 1] then held[v.right] + {x} else held[v.right])
    ensures HasShape(tree', held', path[i])
  {
    TreeMeans(tree, root, held, {}, path[i]);
    var v := tree[path[i]];
    forall y, z | y in held'[path[i]] && z in held'[path[i]] ensures AgreeBelow(y, z, v.bit) {
      if y == x && z != x {
        assert AgreeBelow(x, z, v.bit);
      }
      if z == x && y != x {
        assert AgreeBelow(x, y, v.bit);
      }
    }
    assert held[path[i]] == held[v.left] + held[v.right];
  }

  // What the two children of the new inner node have in common and how they differ.
  lemma SplitNew(members: set<Vertical>, x: Vertical, d: nat)
    requires forall y :: y in members ==> AgreeBelow(x, y, d) && (d in y) != (d in x)
    ensures if d in x then SplitBy(members, {x}, d) else SplitBy({x}, members, d)
  {
    forall y, z | y in members && z in members ensures AgreeBelow(y, z, d) {
      assert AgreeBelow(x, y, d) && AgreeBelow(x, z, d);
    }
    forall y | y in members ensures AgreeBelow(y, x, d) {
      assert AgreeBelow(x, y, d);
    }
  }

  ghost predicate IsNewInner(v: NodeFields, old_v: NodeFields, d: nat, old_child: Node, leaf: Node, x: Vertical) {
    && v.bit == d && v.parent == old_v.parent && old_child != leaf
    && v.left == (if d in x then old_child else leaf) && v.right == (if d in x then leaf else old_child)
  }

  // Off the path a node keeps its shape and sums when its fields and its children's parents stay.
  lemma KeepsOffPath(tree: Tree, tree': Tree, root: Node?, held: Holding, held': Holding, path: seq<Node>, x: Vertical, n: Node)
    requires IsTree(tree, root, held, {}) && IsPath(tree, root, path) && n in tree && n !in path
    requires n in tree' && SameButParent(tree'[n], tree[n])
    requires held.Keys <= held'.Keys && (forall m :: m in held ==> held'[m] == Grown(held, path, x)[m])
    requires !tree[n].IsLeaf() ==> forall m :: m == tree[n].left || m == tree[n].right ==> m in tree' && tree'[m].parent == n
    ensures HasShape(tree', held', n) && HasSums(tree', held', n)
  {
    hide IsTree, IsPath, SplitBy, UnionOf, InterOf;
    TreeMeans(tree, root, held, {}, n);
    var v := tree[n];
    if !v.IsLeaf() {
      NoChildOnPath(tree, root, path, n, v.left);
      NoChildOnPath(tree, root, path, n, v.right);
    }
    KeepsShape(tree, tree', held, held', n);
  }

  lemma GrowsOnPath(tree: Tree, tree': Tree, root: Node?, held: Holding, held': Holding, path: seq<Node>, x: Vertical, i: nat)
    requires IsTree(tree, root, held, {}) && IsPath(tree, root, path) && Follows(tree, held, path, x) && i < |path| - 1
    requires path[i] in tree && path[i] in tree' && tree'[path[i]] == tree[path[i]]
    requires held.Keys <= held'.Keys && (forall m :: m in held ==> held'[m] == Grown(held, path, x)[m])
    requires forall m :: m == tree[path[i]].left || m == tree[path[i]].right ==> m in tree' && tree'[m].parent == path[i]
    ensures HasShape(tree', held', path[i])
  {
    hide IsTree, SplitBy, HasSums, HasPlace, AgreeBelow, Follows;
    TreeMeans(tree, root, held, {}, path[i]);
    var v := tree[path[i]];
    ChildOnPath(tree, root, path, i, v.left);
    ChildOnPath(tree, root, path, i, v.right);
    assert path[i + 1] == v.left || path[i + 1] == v.right;
    assert path[i] in path;
    GrowsAbove(tree, tree', root, held, held', path, x, i);
  }

  lemma KeepsPlace(tree: Tree, tree': Tree, root: Node?, n: Node)
    requires n in tree && n in tree' && HasPlace(tree, root, n) && tree'[n].parent == tree[n].parent
    requires n != root ==>
      && tree[n].parent in tree'
      && tree'[tree[n].parent].left == tree[tree[n].parent].left && tree'[tree[n].parent].right == tree[tree[n].parent].right
    ensures HasPlace(tree', root, n)
  {
  }

  lemma NoChildOnPath(tree: Tree, root: Node?, path: seq<Node>, n: Node, child: Node)
    requires IsPath(tree, root, path) && child in tree && tree[child].parent == n && n !in path
    ensures child !in path
  {
    forall j | 0 <= j < |path| ensures tree[path[j]].parent != n {
      if j > 0 {
        assert path[j - 1] in path;
      }
    }
  }

  // A leaf at the end of the path becomes an inner node over its old set and the new one.
  ghost predicate GrewAtEnd(tree: Tree, tree': Tree, held: Holding, held': Holding, path: seq<Node>, x: Vertical, d: nat,
                            oldChild: Node, leaf: Node)
    requires path != []
  {
    var cur := path[|path| - 1];
    && cur in tree && tree[cur].IsLeaf()
    && oldChild !in tree && leaf !in tree && oldChild != leaf
    && tree'.Keys == tree.Keys + {oldChild, leaf}
    && (forall n :: n in tree && n != cur ==> tree'[n] == tree[n])
    && IsNewInner(tree'[cur], tree[cur], d, oldChild, leaf, x)
    && IsNewLeaf(tree'[oldChild], tree[cur].nodeSet, cur) && IsNewLeaf(tree'[leaf], x, cur)
    && held' == Grown(held, path, x)[oldChild := {tree[cur].nodeSet}][leaf := {x}]
  }

  ghost predicate IsNewLeaf(v: NodeFields, x: Vertical, parent: Node) {
    v.IsLeaf() && v.nodeSet == x && v.parent == parent
  }

  lemma GrowEnd(tree: Tree, tree': Tree, root: Node?, held: Holding, held': Holding, path: seq<Node>, x: Vertical, d: nat,
                oldChild: Node, leaf: Node)
    requires IsTree(tree, root, held, {}) && IsPath(tree, root, path) && Follows(tree, held, path, x)
    requires GrewAtEnd(tree, tree', held, held', path, x, d, oldChild, leaf)
    requires var y := tree[path[|path| - 1]].nodeSet; AgreeBelow(x, y, d) && (d in y) != (d in x)
    ensures IsTree(tree', root, held', OnPath(path, |path|))
  {
    hide *;
    PathEnds(tree, root, path);
    var cur := path[|path| - 1];
    PathNodes(path);
    SplitNew({tree[cur].nodeSet}, x, d);
    EndKeys(tree, tree', root, held, held', path, x, d, oldChild, leaf);
    EndNewNodes(tree, tree', root, held, held', path, x, d, oldChild, leaf);
    forall n | n in tree && n != cur
      ensures HasShape(tree', held', n) && HasPlace(tree', root, n) && (n !in path ==> HasSums(tree', held', n))
    {
      EndOtherNode(tree, tree', root, held, held', path, x, d, oldChild, leaf, n);
    }
    TreeWhen(tree', root, held', OnPath(path, |path|));
  }

  lemma PathNodes(path: seq<Node>)
    ensures forall n :: n in OnPath(path, |path|) <==> n in path
  {
    assert path[..|path|] == path;
  }

  lemma EndKeys(tree: Tree, tree': Tree, root: Node?, held: Holding, held': Holding, path: seq<Node>, x: Vertical, d: nat,
                oldChild: Node, leaf: Node)
    requires IsTree(tree, root, held, {}) && IsPath(tree, root, path)
    requires GrewAtEnd(tree, tree', held, held', path, x, d, oldChild, leaf)
    ensures var cur := path[|path| - 1];
      && cur in tree && tree'.Keys == held'.Keys && root != null && root in tree'
      && (forall n :: n in tree' <==> n in tree || n == oldChild || n == leaf)
      && HasPlace(tree', root, cur)
  {
    hide IsTree, IsPath, HasPlace;
    PathEnds(tree, root, path);
    TreeKeys(tree, root, held, {});
    KeepsPlaceOf(tree, tree', root, held, path[|path| - 1]);
  }

  lemma TreeKeys(tree: Tree, root: Node?, held: Holding, stale: set<Node>)
    requires IsTree(tree, root, held, stale)
    ensures tree.Keys == held.Keys && (root == null ==> tree == map[]) && (root != null ==> root in tree)
  {
  }

  lemma TreeWhen(tree: Tree, root: Node?, held: Holding, stale: set<Node>)
    requires tree.Keys == held.Keys && root != null && root in tree
    requires forall n :: n in tree ==> HasShape(tree, held, n) && HasPlace(tree, root, n)
    requires forall n :: n in tree && n !in stale ==> HasSums(tree, held, n)
    ensures IsTree(tree, root, held, stale)
  {
  }

  lemma KeepsPlaceOf(tree: Tree, tree': Tree, root: Node?, held: Holding, n: Node)
    requires IsTree(tree, root, held, {}) && n in tree && tree.Keys <= tree'.Keys && tree'[n].parent == tree[n].parent
    requires forall m :: m in tree && m != n ==> tree'[m].left == tree[m].left && tree'[m].right == tree[m].right
    ensures HasPlace(tree', root, n)
  {
    TreeMeans(tree, root, held, {}, n);
    assert n != root ==> tree[n].parent != n by {
      if n != root {
        TreeMeans(tree, root, held, {}, tree[n].parent);
      }
    }
    KeepsPlace(tree, tree', root, n);
  }

  lemma EndNewNodes(tree: Tree, tree': Tree, root: Node?, held: Holding, held': Holding, path: seq<Node>, x: Vertical, d: nat,
                    oldChild: Node, leaf: Node)
    requires IsTree(tree, root, held, {}) && IsPath(tree, root, path)
    requires GrewAtEnd(tree, tree', held, held', path, x, d, oldChild, leaf)
    requires var y := tree[path[|path| - 1]].nodeSet; if d in x then SplitBy({y}, {x}, d) else SplitBy({x}, {y}, d)
    ensures var cur := path[|path| - 1]; HasShape(tree', held', cur)
    ensures forall n :: n == oldChild || n == leaf ==> HasShape(tree', held', n) && HasPlace(tree', root, n) && HasSums(tree', held', n)
  {
    hide IsTree, IsPath, SplitBy, UnionOf, InterOf;
    PathEnds(tree, root, path);
    var cur := path[|path| - 1];
    TreeMeans(tree, root, held, {}, cur);
    assert cur in path;
  }

  lemma EndOtherNode(tree: Tree, tree': Tree, root: Node?, held: Holding, held': Holding, path: seq<Node>, x: Vertical, d: nat,
                     oldChild: Node, leaf: Node, n: Node)
    requires IsTree(tree, root, held, {}) && IsPath(tree, root, path) && Follows(tree, held, path, x)
    requires GrewAtEnd(tree, tree', held, held', path, x, d, oldChild, leaf) && n in tree && n != path[|path| - 1]
    ensures HasShape(tree', held', n) && HasPlace(tree', root, n) && (n !in path ==> HasSums(tree', held', n))
  {
    hide IsTree, IsPath, Follows, HasSums, SplitBy, AgreeBelow, UnionOf, InterOf;
    PathEnds(tree, root, path);
    var cur := path[|path| - 1];
    TreeMeans(tree, root, held, {}, n);
    TreeKeys(tree, root, held, {});
    KeepsPlace(tree, tree', root, n);
    if n in path {
      var i :| 0 <= i < |path| && path[i] == n;
      PathInner(tree, root, path, i);
      GrowsOnPath(tree, tree', root, held, held', path, x, i);
    } else {
      KeepsOffPath(tree, tree', root, held, held', path, x, n);
    }
  }

  lemma PathInner(tree: Tree, root: Node?, path: seq<Node>, i: nat)
    requires IsPath(tree, root, path) && i < |path| - 1
    ensures path[i] in tree && !tree[path[i]].IsLeaf()
  {
  }

  // The last node of the path moves to a copy, and becomes an inner node over the copy and the new set.
  ghost predicate GrewInMiddle(tree: Tree, tree': Tree, held: Holding, held': Holding, path: seq<Node>, x: Vertical, d: nat,
                               copy: Node, leaf: Node)
    requires path != []
  {
    var cur := path[|path| - 1];
    && cur in tree && cur in held && !tree[cur].IsLeaf() && tree[cur].left in tree && tree[cur].right in tree
    && copy !in tree && leaf !in tree && copy != leaf
    && tree'.Keys == tree.Keys + {copy, leaf}
    && (forall n :: n in tree && n != cur && n != tree[cur].left && n != tree[cur].right ==> tree'[n] == tree[n])
    && tree'[tree[cur].left] == tree[tree[cur].left].(parent := copy)
    && tree'[tree[cur].right] == tree[tree[cur].right].(parent := copy)
    && IsNewInner(tree'[cur], tree[cur], d, copy, leaf, x)
    && tree'[copy] == tree[cur].(parent := cur) && IsNewLeaf(tree'[leaf], x, cur)
    && held' == Grown(held, path, x)[copy := held[cur]][leaf := {x}]
  }

  lemma GrowMiddle(tree: Tree, tree': Tree, root: Node?, held: Holding, held': Holding, path: seq<Node>, x: Vertical, d: nat,
                   copy: Node, leaf: Node)
    requires IsTree(tree, root, held, {}) && IsPath(tree, root, path) && Follows(tree, held, path, x)
    requires GrewInMiddle(tree, tree', held, held', path, x, d, copy, leaf)
    requires forall y :: y in held[path[|path| - 1]] ==> AgreeBelow(x, y, d) && (d in y) != (d in x)
    ensures IsTree(tree', root, held', OnPath(path, |path|))
  {
    hide *;
    PathEnds(tree, root, path);
    var cur := path[|path| - 1];
    PathNodes(path);
    MiddleKeys(tree, tree', root, held, held', path, x, d, copy, leaf);
    SplitNew(held[cur], x, d);
    MiddleNewNodes(tree, tree', root, held, held', path, x, d, copy, leaf);
    forall n | n in tree && n != cur
      ensures HasShape(tree', held', n) && HasPlace(tree', root, n) && (n !in path ==> HasSums(tree', held', n))
    {
      if n == tree[cur].left || n == tree[cur].right {
        MiddleChild(tree, tree', root, held, held', path, x, d, copy, leaf, n);
      } else {
        MiddleOtherNode(tree, tree', root, held, held', path, x, d, copy, leaf, n);
      }
    }
    TreeWhen(tree', root, held', OnPath(path, |path|));
  }

  lemma MiddleKeys(tree: Tree, tree': Tree, root: Node?, held: Holding, held': Holding, path: seq<Node>, x: Vertical, d: nat,
                   copy: Node, leaf: Node)
    requires IsTree(tree, root, held, {}) && IsPath(tree, root, path)
    requires GrewInMiddle(tree, tree', held, held', path, x, d, copy, leaf)
    ensures var cur := path[|path| - 1];
      && cur in tree && cur in held && tree'.Keys == held'.Keys && root != null && root in tree'
      && (forall n :: n in tree' <==> n in tree || n == copy || n == leaf)
      && HasPlace(tree', root, cur)
  {
    hide IsTree, IsPath, HasPlace;
    PathEnds(tree, root, path);
    TreeKeys(tree, root, held, {});
    KeepsPlaceOf(tree, tree', root, held, path[|path| - 1]);
  }

  lemma MiddleNewNodes(tree: Tree, tree': Tree, root: Node?, held: Holding, held': Holding, path: seq<Node>, x: Vertical, d: nat,
                       copy: Node, leaf: Node)
    requires IsTree(tree, root, held, {}) && IsPath(tree, root, path)
    requires GrewInMiddle(tree, tree', held, held', path, x, d, copy, leaf)
    requires var m := held[path[|path| - 1]]; if d in x then SplitBy(m, {x}, d) else SplitBy({x}, m, d)
    ensures HasShape(tree', held', path[|path| - 1])
    ensures forall n :: n == copy || n == leaf ==> HasShape(tree', held', n) && HasPlace(tree', root, n) && HasSums(tree', held', n)
  {
    hide IsTree, IsPath, SplitBy, UnionOf, InterOf;
    PathEnds(tree, root, path);
    var cur := path[|path| - 1];
    TreeMeans(tree, root, held, {}, cur);
    TreeKeys(tree, root, held, {});
    ChildOnPath(tree, root, path, |path| - 1, tree[cur].left);
    ChildOnPath(tree, root, path, |path| - 1, tree[cur].right);
  }

  lemma MiddleChild(tree: Tree, tree': Tree, root: Node?, held: Holding, held': Holding, path: seq<Node>, x: Vertical, d: nat,
                    copy: Node, leaf: Node, n: Node)
    requires IsTree(tree, root, held, {}) && IsPath(tree, root, path)
    requires GrewInMiddle(tree, tree', held, held', path, x, d, copy, leaf)
    requires n == tree[path[|path| - 1]].left || n == tree[path[|path| - 1]].right
    ensures HasShape(tree', held', n) && HasPlace(tree', root, n) && HasSums(tree', held', n)
  {
    hide IsTree, IsPath, SplitBy, UnionOf, InterOf, HasSums;
    PathEnds(tree, root, path);
    var cur := path[|path| - 1];
    TreeKeys(tree, root, held, {});
    TreeMeans(tree, root, held, {}, cur);
    TreeMeans(tree, root, held, {}, n);
    ChildOnPath(tree, root, path, |path| - 1, n);
    KeepsOffPath(tree, tree', root, held, held', path, x, n);
  }

  lemma MiddleOtherNode(tree: Tree, tree': Tree, root: Node?, held: Holding, held': Holding, path: seq<Node>, x: Vertical, d: nat,
                        copy: Node, leaf: Node, n: Node)
    requires IsTree(tree, root, held, {}) && IsPath(tree, root, path) && Follows(tree, held, path, x)
    requires GrewInMiddle(tree, tree', held, held', path, x, d, copy, leaf) && n in tree && n != path[|path| - 1]
    requires n != tree[path[|path| - 1]].left && n != tree[path[|path| - 1]].right
    ensures HasShape(tree', held', n) && HasPlace(tree', root, n) && (n !in path ==> HasSums(tree', held', n))
  {
    hide IsTree, IsPath, Follows, HasSums, SplitBy, AgreeBelow, UnionOf, InterOf;
    PathEnds(tree, root, path);
    var cur := path[|path| - 1];
    TreeMeans(tree, root, held, {}, n);
    TreeMeans(tree, root, held, {}, cur);
    TreeKeys(tree, root, held, {});
    KeepsPlace(tree, tree', root, n);
    if n in path {
      var i :| 0 <= i < |path| && path[i] == n;
      PathInner(tree, root, path, i);
      GrowsOnPath(tree, tree', root, held, held', path, x, i);
    } else {
      KeepsOffPath(tree, tree', root, held, held', path, x, n);
    }
  }

  // ----- removing a set -----

  ghost function OtherChild(tree: Tree, path: seq<Node>): Node?
    requires |path| >= 2 && path[|path| - 2] in tree
  {
    var v := tree[path[|path| - 2]];
    if v.right == path[|path| - 1] then v.left else v.right
  }

  // The parent of the last node takes over the other child's fields; both children leave the tree.
  ghost predicate Shrank(tree: Tree, tree': Tree, held: Holding, held': Holding, path: seq<Node>, x: Vertical)
    requires |path| >= 2 && path[|path| - 2] in tree
  {
    var leaf, p, q := path[|path| - 1], path[|path| - 2], OtherChild(tree, path);
    && q != null && q in tree && p != q && leaf != q
    && tree'.Keys == tree.Keys - {leaf, q} && p in tree' && held'.Keys == tree'.Keys && held.Keys == tree.Keys
    && tree'[p].left == tree[q].left && tree'[p].right == tree[q].right && tree'[p].nodeSet == tree[q].nodeSet
    && tree'[p].unionSet == tree[q].unionSet && tree'[p].interSet == tree[q].interSet && tree'[p].parent == tree[p].parent
    && (!tree[q].IsLeaf() ==> tree'[p].bit == tree[q].bit)
    && (forall n :: n in tree' && n != p && tree[n].parent != q ==> tree'[n] == tree[n])
    && (forall n :: n in tree' && n != p && tree[n].parent == q ==> tree'[n] == tree[n].(parent := p))
    && (forall n :: n in held' ==> held'[n] == if n in path then held[n] - {x} else held[n])
  }

  // The last two nodes of the path and the other child.
  lemma LastNodes(tree: Tree, root: Node?, held: Holding, path: seq<Node>, x: Vertical)
    requires IsTree(tree, root, held, {}) && IsPath(tree, root, path) && Follows(tree, held, path, x) && |path| >= 2
    requires path[|path| - 1] in tree && tree[path[|path| - 1]].IsLeaf() && tree[path[|path| - 1]].nodeSet == x
    ensures path[|path| - 2] in tree && path[|path| - 2] in held && path[|path| - 2] != path[|path| - 1]
    ensures var q, p, leaf := OtherChild(tree, path), path[|path| - 2], path[|path| - 1];
      && q != null && q in tree && q in held && q !in path && q != p && tree[q].parent == p
      && held[leaf] == {x} && held[p] - {x} == held[q] && tree[leaf].parent == p
  {
    hide IsTree, HasSums;
    var leaf, p := path[|path| - 1], path[|path| - 2];
    TreeMeans(tree, root, held, {}, leaf);
    TreeMeans(tree, root, held, {}, p);
    ChildOnPath(tree, root, path, |path| - 2, tree[p].left);
    ChildOnPath(tree, root, path, |path| - 2, tree[p].right);
  }

  lemma ShrinkLast(tree: Tree, tree': Tree, root: Node?, held: Holding, held': Holding, path: seq<Node>, x: Vertical)
    requires IsTree(tree, root, held, {}) && IsPath(tree, root, path) && Follows(tree, held, path, x) && |path| >= 2
    requires path[|path| - 2] in tree && Shrank(tree, tree', held, held', path, x)
    requires path[|path| - 1] in tree && tree[path[|path| - 1]].IsLeaf() && tree[path[|path| - 1]].nodeSet == x
    ensures var p := path[|path| - 2]; HasShape(tree', held', p) && HasSums(tree', held', p) && HasPlace(tree', root, p)
  {
    hide IsTree, IsPath, Follows, SplitBy, UnionOf, InterOf;
    var p, q := path[|path| - 2], OtherChild(tree, path);
    LastNodes(tree, root, held, path, x);
    TreeMeans(tree, root, held, {}, p);
    TreeMeans(tree, root, held, {}, q);
    PathParent(tree, root, path, |path| - 2);
    if !tree[q].IsLeaf() {
      NoChildOnPath(tree, root, path, q, tree[q].left);
      NoChildOnPath(tree, root, path, q, tree[q].right);
      ChildNot(tree, q, tree[q].left, path[|path| - 1], p);
      ChildNot(tree, q, tree[q].right, path[|path| - 1], p);
    }
  }

  // Where a node of the path hangs.
  lemma PathParent(tree: Tree, root: Node?, path: seq<Node>, i: nat)
    requires IsPath(tree, root, path) && i < |path|
    ensures path[i] in tree && path[i] in path && (path[i] == root <==> i == 0)
    ensures if i == 0 then tree[path[i]].parent == null else tree[path[i]].parent == path[i - 1] && path[i - 1] in path
  {
  }

  lemma ChildNot(tree: Tree, q: Node, child: Node, leaf: Node, p: Node)
    requires child in tree && leaf in tree && q in tree && tree[child].parent == q && tree[leaf].parent == p && tree[q].parent == p && p != q
    ensures child != leaf && child != q
  {
  }

  // The nodes above lose the set from the side of the path.
  lemma ShrinksAbove(tree: Tree, tree': Tree, root: Node?, held: Holding, held': Holding, path: seq<Node>, x: Vertical, i: nat)
    requires IsTree(tree, root, held, {}) && IsPath(tree, root, path) && Follows(tree, held, path, x) && i < |path| - 2
    requires path[|path| - 2] in tree && Shrank(tree, tree', held, held', path, x)
    requires path[|path| - 1] in tree && tree[path[|path| - 1]].IsLeaf() && tree[path[|path| - 1]].nodeSet == x
    ensures path[i] in tree' && HasShape(tree', held', path[i]) && HasPlace(tree', root, path[i])
  {
    hide IsTree, AgreeBelow, UnionOf, InterOf, HasSums, IsPath, Shrank, SplitBy, OtherChild;
    var n, q := path[i], OtherChild(tree, path);
    LastNodes(tree, root, held, path, x);
    TreeMeans(tree, root, held, {}, n);
    PathInner(tree, root, path, i);
    PathParent(tree, root, path, i);
    PathParent(tree, root, path, i + 1);
    PathDistinct(tree, root, path, i);
    var v := tree[n];
    ChildOnPath(tree, root, path, i, v.left);
    ChildOnPath(tree, root, path, i, v.right);
    ShrankFields(tree, tree', held, held', path, x, n);
    ShrankFields(tree, tree', held, held', path, x, v.left);
    ShrankFields(tree, tree', held, held', path, x, v.right);
    if i > 0 {
      PathParent(tree, root, path, i - 1);
      PathDistinct(tree, root, path, i - 1);
      ShrankFields(tree, tree', held, held', path, x, path[i - 1]);
    }
    TreeMeans(tree, root, held, {}, v.left);
    TreeMeans(tree, root, held, {}, v.right);
    SideLosesSet(held[v.left], held[v.right], v.bit, x);
    ShrunkShape(tree, tree', held, held', path, x, i);
  }

  // What removal does to the fields of a node that stays.
  lemma ShrankFields(tree: Tree, tree': Tree, held: Holding, held': Holding, path: seq<Node>, x: Vertical, m: Node)
    requires |path| >= 2 && path[|path| - 2] in tree && Shrank(tree, tree', held, held', path, x)
    requires m in tree && m != path[|path| - 1] && m != OtherChild(tree, path)
    ensures m in tree' && m in held && m in held' && held'[m] == (if m in path then held[m] - {x} else held[m])
    ensures tree[m].parent != OtherChild(tree, path) ==> tree'[m].parent == tree[m].parent
    ensures tree[m].parent != OtherChild(tree, path) && m != path[|path| - 2] ==> tree'[m] == tree[m]
  {
  }

  lemma ShrunkShape(tree: Tree, tree': Tree, held: Holding, held': Holding, path: seq<Node>, x: Vertical, i: nat)
    requires i < |path| - 1 && path[i] in tree && path[i] in held && path[i] in tree' && path[i] in held'
    requires IsInner(tree, held, path[i]) && tree'[path[i]] == tree[path[i]] && held'[path[i]] == held[path[i]] - {x}
    requires var v := tree[path[i]];
      && path[i + 1] == (if v.bit in x then v.right else v.left)
      && held[v.left] != {} && held[v.right] != {}
      && v.left in tree' && v.right in tree' && v.left in held' && v.right in held'
      && tree'[v.left].parent == path[i] && tree'[v.right].parent == path[i]
      && held'[v.left] == (if v.left == path[i + 1] then held[v.left] - {x} else held[v.left])
      && held'[v.right] == (if v.right == path[i + 1] then held[v.right] - {x} else held[v.right])
    ensures HasShape(tree', held', path[i])
  {
    hide AgreeBelow;
    var v := tree[path[i]];
    SideLosesSet(held[v.left], held[v.right], v.bit, x);
    var other := if v.bit in x then v.left else v.right;
    var y :| y in held[other];
    assert y in held'[path[i]];
  }

  lemma PathDistinct(tree: Tree, root: Node?, path: seq<Node>, i: nat)
    requires IsPath(tree, root, path) && i < |path| - 2
    ensures path[i] != path[|path| - 1] && path[i] != path[|path| - 2] && path[i + 1] != path[|path| - 1]
  {
  }

  // Taking x out of the side that may hold it takes it out of both.
  lemma SideLosesSet(low: set<Vertical>, high: set<Vertical>, bit: nat, x: Vertical)
    requires SplitBy(low, high, bit)
    ensures low + high - {x} == if bit in x then low + (high - {x}) else (low - {x}) + high
    ensures SplitBy(low - {x}, high, bit) && SplitBy(low, high - {x}, bit)
  {
  }

  lemma ShrinkElsewhere(tree: Tree, tree': Tree, root: Node?, held: Holding, held': Holding, path: seq<Node>, x: Vertical, n: Node)
    requires IsTree(tree, root, held, {}) && IsPath(tree, root, path) && Follows(tree, held, path, x) && |path| >= 2
    requires path[|path| - 2] in tree && Shrank(tree, tree', held, held', path, x)
    requires path[|path| - 1] in tree && tree[path[|path| - 1]].IsLeaf() && tree[path[|path| - 1]].nodeSet == x
    requires n in tree' && n !in path
    ensures HasShape(tree', held', n) && HasPlace(tree', root, n) && HasSums(tree', held', n)
  {
    hide IsTree, Follows, SplitBy, UnionOf, InterOf, HasSums, IsPath;
    var q, p := OtherChild(tree, path), path[|path| - 2];
    LastNodes(tree, root, held, path, x);
    TreeMeans(tree, root, held, {}, n);
    TreeMeans(tree, root, held, {}, q);
    PathEnds(tree, root, path);
    PathParent(tree, root, path, |path| - 1);
    var v := tree[n];
    if !v.IsLeaf() {
      NoChildOnPath(tree, root, path, n, v.left);
      NoChildOnPath(tree, root, path, n, v.right);
    }
    KeepsShape(tree, tree', held, held', n);
    if v.parent != q {
      ParentKept(tree, tree', root, held, path, x, n);
    }
  }

  lemma ParentKept(tree: Tree, tree': Tree, root: Node?, held: Holding, path: seq<Node>, x: Vertical, n: Node)
    requires IsTree(tree, root, held, {}) && IsPath(tree, root, path) && Follows(tree, held, path, x) && |path| >= 2
    requires path[|path| - 2] in tree && n in tree && n != root && n !in path
    requires path[|path| - 1] in tree && tree[path[|path| - 1]].IsLeaf() && tree[path[|path| - 1]].nodeSet == x
    ensures n != OtherChild(tree, path) ==> tree[n].parent != path[|path| - 2] && tree[n].parent != path[|path| - 1]
  {
    TreeMeans(tree, root, held, {}, n);
    TreeMeans(tree, root, held, {}, path[|path| - 2]);
  }

  lemma ShrinkTree(tree: Tree, tree': Tree, root: Node?, held: Holding, held': Holding, path: seq<Node>, x: Vertical)
    requires IsTree(tree, root, held, {}) && IsPath(tree, root, path) && Follows(tree, held, path, x) && |path| >= 2
    requires path[|path| - 2] in tree && Shrank(tree, tree', held, held', path, x)
    requires path[|path| - 1] in tree && tree[path[|path| - 1]].IsLeaf() && tree[path[|path| - 1]].nodeSet == x
    ensures IsTree(tree', root, held', OnPath(path, |path| - 2))
  {
    hide *;
    PathEnds(tree, root, path);
    ShrinkKeys(tree, tree', root, held, held', path, x);
    ShrinkLast(tree, tree', root, held, held', path, x);
    forall n | n in tree' ensures HasShape(tree', held', n) && HasPlace(tree', root, n)
    {
      if n in path {
        var i :| 0 <= i < |path| && path[i] == n;
        if i < |path| - 2 {
          ShrinksAbove(tree, tree', root, held, held', path, x, i);
        }
      } else {
        ShrinkElsewhere(tree, tree', root, held, held', path, x, n);
      }
    }
    forall n | n in tree' && n !in OnPath(path, |path| - 2) ensures HasSums(tree', held', n)
    {
      if n in path {
        OffShorterPath(path, n);
      } else {
        ShrinkElsewhere(tree, tree', root, held, held', path, x, n);
      }
    }
    TreeWhen(tree', root, held', OnPath(path, |path| - 2));
  }

  lemma OffShorterPath(path: seq<Node>, n: Node)
    requires |path| >= 2 && n in path && n !in OnPath(path, |path| - 2)
    ensures n == path[|path| - 2] || n == path[|path| - 1]
  {
    forall j | 0 <= j < |path| - 2 ensures path[j] in OnPath(path, |path| - 2) {
      assert path[j] in path[..|path| - 2];
    }
    var i :| 0 <= i < |path| && path[i] == n;
  }

  lemma ShrinkKeys(tree: Tree, tree': Tree, root: Node?, held: Holding, held': Holding, path: seq<Node>, x: Vertical)
    requires IsTree(tree, root, held, {}) && IsPath(tree, root, path) && Follows(tree, held, path, x) && |path| >= 2
    requires path[|path| - 2] in tree && Shrank(tree, tree', held, held', path, x)
    requires path[|path| - 1] in tree && tree[path[|path| - 1]].IsLeaf() && tree[path[|path| - 1]].nodeSet == x
    ensures tree'.Keys == held'.Keys && root != null && root in tree' && path[|path| - 2] in tree'
    ensures path[|path| - 1] !in tree'
  {
    hide IsTree, Follows;
    LastNodes(tree, root, held, path, x);
    PathEnds(tree, root, path);
  }

  // ----- recomputing the sums up the path -----

  ghost function UnionAt(v: NodeFields): Vertical {
    if v.IsLeaf() then v.nodeSet else v.unionSet
  }

  ghost function InterAt(v: NodeFields): Vertical {
    if v.IsLeaf() then v.nodeSet else v.interSet
  }

  lemma SumsAt(tree: Tree, root: Node?, held: Holding, stale: set<Node>, n: Node)
    requires IsTree(tree, root, held, stale) && n in tree && n !in stale
    ensures n in held && UnionAt(tree[n]) == UnionOf(held[n]) && InterAt(tree[n]) == InterOf(held[n]) && held[n] != {}
  {
    hide UnionOf, InterOf, IsTree, SplitBy;
    TreeMeans(tree, root, held, stale, n);
    if tree[n].IsLeaf() {
      UnionOfOne(tree[n].nodeSet);
    }
  }

  // The last node of the path gets its sums; it is no longer stale.
  lemma UpdateStep(tree: Tree, root: Node?, held: Holding, path: seq<Node>)
    requires IsPath(tree, root, path) && IsTree(tree, root, held, OnPath(path, |path|))
    requires path[|path| - 1] in tree && !tree[path[|path| - 1]].IsLeaf()
    ensures var n := path[|path| - 1]; tree[n].left in tree && tree[n].right in tree
    ensures var n, v := path[|path| - 1], tree[path[|path| - 1]];
      var w := v.(unionSet := UnionAt(tree[v.left]) + UnionAt(tree[v.right]), interSet := InterAt(tree[v.left]) * InterAt(tree[v.right]));
      IsTree(tree[n := w], root, held, OnPath(path, |path| - 1))
  {
    hide IsPath, IsTree, UnionOf, InterOf, SplitBy, HasPlace;
    PathEnds(tree, root, path);
    var n := path[|path| - 1];
    var v := tree[n];
    TreeMeans(tree, root, held, OnPath(path, |path|), n);
    TreeKeys(tree, root, held, OnPath(path, |path|));
    ChildOnPath(tree, root, path, |path| - 1, v.left);
    ChildOnPath(tree, root, path, |path| - 1, v.right);
    PathNodes(path);
    SumsAt(tree, root, held, OnPath(path, |path|), v.left);
    SumsAt(tree, root, held, OnPath(path, |path|), v.right);
    UnionOfSum(held[v.left], held[v.right]);
    var w := v.(unionSet := UnionAt(tree[v.left]) + UnionAt(tree[v.right]), interSet := InterAt(tree[v.left]) * InterAt(tree[v.right]));
    OneNodeChanged(tree, root, held, path, w);
  }

  lemma OneNodeChanged(tree: Tree, root: Node?, held: Holding, path: seq<Node>, w: NodeFields)
    requires IsPath(tree, root, path) && IsTree(tree, root, held, OnPath(path, |path|)) && path[|path| - 1] in tree && path[|path| - 1] in held
    requires var v := tree[path[|path| - 1]]; w == v.(unionSet := w.unionSet, interSet := w.interSet) && !v.IsLeaf()
    requires w.unionSet == UnionOf(held[path[|path| - 1]]) && w.interSet == InterOf(held[path[|path| - 1]])
    ensures IsTree(tree[path[|path| - 1] := w], root, held, OnPath(path, |path| - 1))
  {
    hide UnionOf, InterOf, SplitBy, IsPath, IsTree;
    PathEnds(tree, root, path);
    var n := path[|path| - 1];
    var tree' := tree[n := w];
    TreeKeys(tree, root, held, OnPath(path, |path|));
    forall m | m in tree'
      ensures HasShape(tree', held, m) && HasPlace(tree', root, m) && (m !in OnPath(path, |path| - 1) ==> HasSums(tree', held, m))
    {
      TreeMeans(tree, root, held, OnPath(path, |path|), m);
      if m != n && m !in OnPath(path, |path| - 1) {
        assert path[..|path|] == path[..|path| - 1] + [n];
      }
    }
    TreeWhen(tree', root, held, OnPath(path, |path| - 1));
  }

  lemma PathKept(tree: Tree, tree': Tree, root: Node?, path: seq<Node>, k: nat)
    requires IsPath(tree, root, path) && 1 <= k <= |path|
    requires forall i :: 0 <= i < k ==> path[i] in tree' && path[i] in tree && tree'[path[i]].parent == tree[path[i]].parent
    requires forall i :: 0 <= i < k - 1 ==> tree'[path[i]].left == tree[path[i]].left && tree'[path[i]].right == tree[path[i]].right
    ensures IsPath(tree', root, path[..k])
  {
  }
}
