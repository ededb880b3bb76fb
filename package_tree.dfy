/** The package tree of DexMethodCounts as the program builds it: Node objects
    that count and that hold their children in a name-ordered map, updated in
    place while the references are walked, then printed by a recursive walk. */
module PackageTree {
  import opened Text
  import opened NamespaceCounts
  import opened Render

  /** DexMethodCounts.Node: a count and the children by name. The ghost path
      records where in the tree the node was put. */
  class Node {
    var count: nat
    var children: map<string, Node>
    ghost const path: Path

    constructor (ghost at: Path)
      ensures count == 0 && children == map[] && path == at
    {
      count := 0;
      children := map[];
      path := at;
    }
  }

  /** The tree hanging from one root Node. The ghost map nodeAt names each node
      reachable from the root by its path of names, and the ghost map counts
      mirrors their count fields: the value NamespaceCounts describes. */
  class PackageTree {
    const root: Node
    ghost var nodeAt: map<Path, Node>
    ghost var counts: Counts
    ghost var Repr: set<Node>

    /** nodeAt lists exactly the nodes reachable from the root, each once, every
        children map agrees with it, and counts holds every node's count. */
    ghost predicate Valid()
      reads this, Repr
    {
      && Covered()
      && [] in nodeAt && nodeAt[[]] == root
      && ChildrenListed() && ParentsLinked() && Synced()
    }

    /** Every node is in Repr and knows its own path, so no node sits at two
        paths. */
    ghost predicate Covered()
      reads this
    {
      forall p :: p in nodeAt ==> nodeAt[p] in Repr && nodeAt[p].path == p
    }

    /** The child called n of the node at p is the node at p + [n]. */
    ghost predicate ChildrenListed()
      requires Covered()
      reads this, Repr
    {
      forall p, n {:trigger n in nodeAt[p].children} :: p in nodeAt && n in nodeAt[p].children ==>
        p + [n] in nodeAt && nodeAt[p].children[n] == nodeAt[p + [n]]
    }

    /** Every node but the root is a child of the node at its parent's path. */
    ghost predicate ParentsLinked()
      requires Covered()
      reads this, Repr
    {
      forall q {:trigger Parent(q)} :: q in nodeAt && q != [] ==>
        Parent(q) in nodeAt && q[|q| - 1] in nodeAt[Parent(q)].children
    }

    /** counts has the paths of nodeAt as keys and each node's count. */
    ghost predicate Synced()
      requires Covered()
      reads this, Repr
    {
      counts.Keys == nodeAt.Keys && forall p :: p in nodeAt ==> nodeAt[p].count == counts[p]
    }

    /** new Node(): a root with count 0 and no children. */
    constructor ()
      ensures Valid()
      ensures counts == map[[] := 0]
      ensures fresh(Repr)
    {
      var r := new Node([]);
      root := r;
      nodeAt := map[[] := r];
      counts := map[[] := 0];
      Repr := {r};
    }

    /** The children of a node are the names one step below its path. */
    lemma ChildrenAreKids(p: Path)
      requires Valid() && p in nodeAt
      ensures nodeAt[p].children.Keys == Kids(counts, p)
    {
      forall n | p + [n] in nodeAt ensures n in nodeAt[p].children {
        var q := p + [n];
        assert Parent(q) == p;
      }
    }

    /** The walk of one reference (generate, the inner loop and the increment
        after it): every node from the root down the first maxDepth pieces
        gains one, and the nodes missing on the way are created. */
    method Add(pieces: seq<string>, maxDepth: int)
      requires Valid()
      modifies this, Repr
      ensures Valid()
      ensures counts == AddWalk(old(counts), Walk(pieces, maxDepth))
      ensures fresh(Repr - old(Repr))
    {
      ghost var c0 := counts;
      var packageNode, path := WalkDown(pieces, maxDepth);
      Increment(packageNode, path);
      WalkEnds(c0, path);
    }

    /** The inner loop of the walk: every node above the last one reached has
        gained one, and the last one reached has its old count (0 when new). */
    method WalkDown(pieces: seq<string>, maxDepth: int) returns (packageNode: Node, ghost path: Path)
      requires Valid()
      modifies this, Repr
      ensures Valid()
      ensures path == Walk(pieces, maxDepth)
      ensures path in nodeAt && nodeAt[path] == packageNode
      ensures counts == Reached(old(counts), path)
      ensures fresh(Repr - old(Repr))
    {
      ghost var c0 := counts;
      WalkEnds(c0, []);
      packageNode := root;
      path := [];
      var i := 0;
      while i < |pieces| && i < maxDepth
        invariant 0 <= i <= |pieces| && (i == 0 || i <= maxDepth)
        invariant path == pieces[..i]
        invariant Valid()
        invariant path in nodeAt && nodeAt[path] == packageNode
        invariant counts == Reached(c0, path)
        invariant fresh(Repr - old(Repr))
        decreases |pieces| - i
      {
        var name := pieces[i];
        SliceStep(pieces, i);
        ghost var added;
        packageNode, added := Descend(packageNode, path, name);
        StepDownWalk(c0, path, name);
        path := path + [name];
        i := i + 1;
      }
    }

    /** One pass of the walk loop: the node at path gains one, and the walk
        moves on to its child `name`, which is created when missing. */
    method Descend(packageNode: Node, ghost path: Path, name: string) returns (child: Node, ghost added: set<Node>)
      requires Valid() && path in nodeAt && nodeAt[path] == packageNode
      modifies this, packageNode
      ensures Valid()
      ensures path + [name] in nodeAt && nodeAt[path + [name]] == child
      ensures counts == StepDown(old(counts), path, name)
      ensures Repr == old(Repr) + added && fresh(added)
    {
      assert path + [name] in counts <==> name in packageNode.children by {
        assert Parent(path + [name]) == path;
      }
      Increment(packageNode, path);
      if name in packageNode.children {
        child := packageNode.children[name];
        added := {};
      } else {
        child := NewChild(packageNode, path, name);
        added := {child};
      }
    }

    /** packageNode.count++ on the node at path: that count alone changes. */
    method Increment(node: Node, ghost path: Path)
      requires Valid() && path in nodeAt && nodeAt[path] == node
      modifies this, node
      ensures Valid()
      ensures nodeAt == old(nodeAt) && Repr == old(Repr)
      ensures path in old(counts) && counts == old(counts)[path := old(counts)[path] + 1]
    {
      node.count := node.count + 1;
      counts := counts[path := counts[path] + 1];
      assert Synced() by {
        forall p | p in nodeAt && p != path ensures nodeAt[p].count == counts[p] {
          assert nodeAt[p] != node;
        }
      }
    }

    /** A new Node put under `name` in the children of the node at path, which
        has no child of that name: the tree gains a node with count 0. */
    method NewChild(node: Node, ghost path: Path, name: string) returns (child: Node)
      requires Valid() && path in nodeAt && nodeAt[path] == node
      requires name !in node.children
      modifies this, node
      ensures Valid()
      ensures old(path + [name] !in nodeAt)
      ensures nodeAt == old(nodeAt)[path + [name] := child]
      ensures Repr == old(Repr) + {child}
      ensures counts == old(counts)[path + [name] := 0]
      ensures fresh(child)
    {
      ghost var next := path + [name];
      assert next !in nodeAt by {
        assert Parent(next) == path;
      }
      child := new Node(next);
      node.children := node.children[name := child];
      nodeAt, counts, Repr := nodeAt[next := child], counts[next := 0], Repr + {child};
      assert Parent(next) == path;
      GrownValid(node, child);
    }

    /** The tree stays valid when a new node, with count 0 and no children, is
        put under a name its parent did not have and nothing else changes. The
        new node's ghost path names the parent and the name. */
    twostate lemma GrownValid(node: Node, new child: Node)
      requires child.path != [] && old(Valid())
      requires Parent(child.path) in old(nodeAt) && old(nodeAt)[Parent(child.path)] == node
      requires child.path !in old(nodeAt)
      requires child !in old(Repr) && child.children == map[] && child.count == 0
      requires nodeAt == old(nodeAt)[child.path := child]
      requires Repr == old(Repr) + {child} && counts == old(counts)[child.path := 0]
      requires node.children == old(node.children)[child.path[|child.path| - 1] := child]
      requires node.count == old(node.count)
      requires forall o :: o in old(Repr) && o != node ==> o.children == old(o.children) && o.count == old(o.count)
      ensures Valid()
    {
      var next := child.path;
      var path := Parent(next);
      var name := next[|next| - 1];
      assert next == path + [name];
      assert Covered() by {
        forall p | p in nodeAt ensures nodeAt[p] in Repr && nodeAt[p].path == p {
          if p != next {
            assert old(nodeAt[p] in Repr);
          }
        }
      }
      assert ChildrenListed() by {
        forall p, n {:trigger n in nodeAt[p].children} | p in nodeAt && n in nodeAt[p].children
          ensures p + [n] in nodeAt && nodeAt[p].children[n] == nodeAt[p + [n]]
        {
          if p != next && p != path {
            assert nodeAt[p] == old(nodeAt[p]) && nodeAt[p] != node;
            assert old(n in nodeAt[p].children);
          } else if n != name {
            assert old(n in nodeAt[p].children);
          }
        }
      }
      assert ParentsLinked() by {
        forall q {:trigger Parent(q)} | q in nodeAt && q != []
          ensures Parent(q) in nodeAt && q[|q| - 1] in nodeAt[Parent(q)].children
        {
          if q != next {
            assert old(Parent(q) in nodeAt && q[|q| - 1] in nodeAt[Parent(q)].children);
          }
        }
      }
      assert Synced() by {
        forall p | p in nodeAt && p != next ensures nodeAt[p].count == counts[p] {
          assert nodeAt[p] == old(nodeAt[p]);
        }
      }
    }

    /** Node.output(indent) on the node at path: the root line when indent is
        empty, then each child in ascending name order with its count, each
        followed by its own subtree one level deeper. */
    method Output(node: Node, ghost path: Path, indent: string) returns (lines: seq<string>)
      requires Valid() && path in nodeAt && nodeAt[path] == node
      ensures lines == (if |indent| == 0 then ["<root>: " + Decimal(counts[path])] else []) +
                       RenderChildren(counts, path, indent + Indent)
      decreases Under(counts, path), 2
    {
      lines := [];
      if |indent| == 0 {
        lines := ["<root>: " + Decimal(node.count)];
      }
      ChildrenAreKids(path);
      var names := AscendingKeys(node.children.Keys);
      var below := OutputChildren(node, path, names, indent + Indent);
      lines := lines + below;
    }

    /** The loop of output over the children named `names`, in that order. */
    method OutputChildren(node: Node, ghost path: Path, names: seq<string>, inner: string)
      returns (lines: seq<string>)
      requires Valid() && path in nodeAt && nodeAt[path] == node
      requires forall i :: 0 <= i < |names| ==> names[i] in node.children
      requires inner != []
      ensures forall i :: 0 <= i < |names| ==> path + [names[i]] in counts
      ensures lines == RenderList(counts, path, names, inner)
      decreases Under(counts, path), 1
    {
      ChildrenAreKids(path);
      ghost var c := counts;
      lines := [];
      for k := 0 to |names|
        invariant counts == c
        invariant lines == RenderList(c, path, names[..k], inner)
      {
        var name := names[k];
        var below := OutputChild(node, path, name, inner);
        RenderListStep(c, path, names, k, inner, below);
        lines := lines + below;
      }
      assert names[..|names|] == names;
    }

    /** One pass of the loop in output: the line of the child `name`, at
        `indent`, then the child's own subtree. */
    method OutputChild(node: Node, ghost path: Path, name: string, indent: string) returns (lines: seq<string>)
      requires Valid() && path in nodeAt && nodeAt[path] == node
      requires name in node.children && indent != []
      ensures path + [name] in counts
      ensures lines == [Entry(indent, name, counts[path + [name]])] +
                       RenderChildren(counts, path + [name], indent + Indent)
      decreases Under(counts, path), 0
    {
      var child := node.children[name];
      ghost var next := path + [name];
      assert next in nodeAt && nodeAt[next] == child && child.count == counts[next];
      lines := [Entry(indent, name, child.count)];
      UnderShrinks(counts, path, name);
      var below := Output(child, next, indent);
      assert below == RenderChildren(counts, next, indent + Indent);
      lines := lines + below;
    }
  }
}
