/** The text form of the package tree (DexMethodCounts.Node.output): a line for
    the root, then a pre-order walk that lists the children of every node in
    ascending name order, each as its name and count, four more spaces of
    indent per level. */
module Render {
  import opened Text
  import opened NamespaceCounts

  /** What each level adds to the indent. */
  const Indent: string := "    "

  /** The line printed for a child: indent, name, ": ", count. */
  function Entry(indent: string, name: string, count: nat): string
  {
    indent + name + ": " + Decimal(count)
  }

  /** The names of the children of the node at p. */
  function Kids(c: Counts, p: Path): (names: set<string>)
    ensures forall n :: n in names <==> p + [n] in c
  {
    assert forall q :: q in c && |q| == |p| + 1 && q[..|p|] == p ==> q == p + [q[|p|]];
    set q | q in c.Keys && |q| == |p| + 1 && q[..|p|] == p :: q[|p|]
  }

  /** The nodes strictly below the node at p. */
  function Under(c: Counts, p: Path): set<Path>
  {
    set q | q in c.Keys && p < q
  }

  /** A node strictly below the child n of p is strictly below p, through n. */
  lemma BelowChild(p: Path, n: string, q: Path)
    requires p + [n] < q
    ensures p < q && q[|p|] == n
  {
    assert q[..|p| + 1] == p + [n];
    assert q[..|p|] == q[..|p| + 1][..|p|];
  }

  lemma UnderShrinks(c: Counts, p: Path, n: string)
    requires p + [n] in c
    ensures Under(c, p + [n]) < Under(c, p)
  {
    forall q | q in Under(c, p + [n]) ensures q in Under(c, p) {
      BelowChild(p, n, q);
    }
    assert p + [n] in Under(c, p);
  }

  /** The lines of the children of the node at p and of everything below them,
      in the order output prints them, for children printed at `indent`. */
  ghost function RenderChildren(c: Counts, p: Path, indent: string): seq<string>
    decreases Under(c, p), 1
  {
    RenderList(c, p, SortedKeys(Kids(c, p)), indent)
  }

  /** The lines output prints for the children named `names`, in that order. */
  ghost function RenderList(c: Counts, p: Path, names: seq<string>, indent: string): seq<string>
    requires forall i :: 0 <= i < |names| ==> p + [names[i]] in c
    decreases Under(c, p), 0, |names|
  {
    if names == [] then []
    else
      var n := names[|names| - 1];
      UnderShrinks(c, p, n);
      RenderList(c, p, names[..|names| - 1], indent) +
      [Entry(indent, n, c[p + [n]])] +
      RenderChildren(c, p + [n], indent + Indent)
  }

  /** Printing the next child, its line and then its subtree, extends the
      lines printed so far to the list of children one name further. */
  lemma RenderListStep(c: Counts, p: Path, names: seq<string>, k: nat, indent: string,
                       below: seq<string>)
    requires forall i :: 0 <= i < |names| ==> p + [names[i]] in c
    requires k < |names|
    requires below == [Entry(indent, names[k], c[p + [names[k]]])] +
                      RenderChildren(c, p + [names[k]], indent + Indent)
    ensures RenderList(c, p, names[..k], indent) + below == RenderList(c, p, names[..k + 1], indent)
  {
    var done := RenderList(c, p, names[..k], indent);
    var line := Entry(indent, names[k], c[p + [names[k]]]);
    var rest := RenderChildren(c, p + [names[k]], indent + Indent);
    assert names[..k + 1][..k] == names[..k];
    assert RenderList(c, p, names[..k + 1], indent) == done + [line] + rest;
    AppendAssoc(done, [line], rest);
  }

  /** The whole tree as output("") prints it. */
  ghost function Report(c: Counts): seq<string>
    requires [] in c
  {
    ["<root>: " + Decimal(c[[]])] + RenderChildren(c, [], Indent)
  }

  // An independent description of the same text: the nodes in path order, one
  // line each.

  function Spaces(k: nat): (s: string)
    ensures |s| == k && forall i :: 0 <= i < k ==> s[i] == ' '
  {
    seq(k, _ => ' ')
  }

  lemma SpacesGrow(k: nat)
    ensures Spaces(k) + Indent == Spaces(k + 4)
  {
  }

  /** The line of a non-root node: four spaces per level, its name, its count. */
  function Line(c: Counts, q: Path): string
    requires q in c && q != []
  {
    Entry(Spaces(4 * |q|), q[|q| - 1], c[q])
  }

  function Lines(c: Counts, qs: seq<Path>): (r: seq<string>)
    requires forall i :: 0 <= i < |qs| ==> qs[i] in c && qs[i] != []
    ensures |r| == |qs|
  {
    if qs == [] then []
    else
      Lines(c, qs[..|qs| - 1]) + [Line(c, qs[|qs| - 1])]
  }

  /** Paths in the order of a pre-order walk that visits children in ascending
      name order: a node comes before the nodes below it, and otherwise the
      first differing name decides. */
  predicate PathPrecedes(a: Path, b: Path)
    decreases |a|
  {
    if a == [] then b != []
    else b != [] && (Precedes(a[0], b[0]) || (a[0] == b[0] && PathPrecedes(a[1..], b[1..])))
  }

  ghost predicate PathsAscending(s: seq<Path>)
  {
    forall i, j :: 0 <= i < j < |s| ==> PathPrecedes(s[i], s[j])
  }

  /** The nodes strictly below p in the order output visits them. */
  ghost function Subtree(c: Counts, p: Path): (r: seq<Path>)
    ensures forall i :: 0 <= i < |r| ==> r[i] in c && r[i] != [] && p < r[i]
    decreases Under(c, p), 1
  {
    SubtreeList(c, p, SortedKeys(Kids(c, p)))
  }

  /** The children named `names` of p, each followed by the nodes below it. */
  ghost function SubtreeList(c: Counts, p: Path, names: seq<string>): (r: seq<Path>)
    requires forall i :: 0 <= i < |names| ==> p + [names[i]] in c
    ensures forall i :: 0 <= i < |r| ==> r[i] in c && r[i] != [] && p < r[i] && r[i][|p|] in names
    decreases Under(c, p), 0, |names|
  {
    if names == [] then []
    else
      var n := names[|names| - 1];
      var init := names[..|names| - 1];
      UnderShrinks(c, p, n);
      var below := Subtree(c, p + [n]);
      BelowChildAll(p, n, below);
      SubtreeList(c, p, init) + [p + [n]] + below
  }

  lemma BelowChildAll(p: Path, n: string, s: seq<Path>)
    requires forall i :: 0 <= i < |s| ==> p + [n] < s[i]
    ensures forall i :: 0 <= i < |s| ==> p < s[i] && s[i][|p|] == n
  {
    forall i | 0 <= i < |s| ensures p < s[i] && s[i][|p|] == n {
      BelowChild(p, n, s[i]);
    }
  }

  lemma {:induction false} LinesAppend(c: Counts, a: seq<Path>, b: seq<Path>)
    requires forall i :: 0 <= i < |a| ==> a[i] in c && a[i] != []
    requires forall i :: 0 <= i < |b| ==> b[i] in c && b[i] != []
    ensures Lines(c, a + b) == Lines(c, a) + Lines(c, b)
  {
    if b == [] {
      assert a + b == a;
    } else {
      LinesAppend(c, a, b[..|b| - 1]);
      assert (a + b)[..|a + b| - 1] == a + b[..|b| - 1];
    }
  }

  /** The printed lines are the nodes' lines in visiting order: the indent that
      output passes down is four spaces per level. */
  lemma {:induction false} RenderChildrenIsLines(c: Counts, p: Path)
    ensures RenderChildren(c, p, Spaces(4 * (|p| + 1))) == Lines(c, Subtree(c, p))
    decreases Under(c, p), 1
  {
    RenderListIsLines(c, p, SortedKeys(Kids(c, p)));
  }

  lemma {:induction false} RenderListIsLines(c: Counts, p: Path, names: seq<string>)
    requires forall i :: 0 <= i < |names| ==> p + [names[i]] in c
    ensures RenderList(c, p, names, Spaces(4 * (|p| + 1))) == Lines(c, SubtreeList(c, p, names))
    decreases Under(c, p), 0, |names|
  {
    if names != [] {
      var n := names[|names| - 1];
      var init := names[..|names| - 1];
      var node := p + [n];
      var indent := Spaces(4 * (|p| + 1));
      UnderShrinks(c, p, n);
      var front := SubtreeList(c, p, init);
      var below := Subtree(c, node);
      var line := Entry(indent, n, c[node]);
      assert SubtreeList(c, p, names) == front + [node] + below;
      assert RenderList(c, p, names, indent) ==
             RenderList(c, p, init, indent) + [line] + RenderChildren(c, node, indent + Indent);
      assert RenderList(c, p, init, indent) == Lines(c, front) by {
        RenderListIsLines(c, p, init);
      }
      assert RenderChildren(c, node, indent + Indent) == Lines(c, below) by {
        assert 4 * (|node| + 1) == 4 * (|p| + 1) + 4;
        SpacesGrow(4 * (|p| + 1));
        assert indent + Indent == Spaces(4 * (|node| + 1));
        RenderChildrenIsLines(c, node);
      }
      assert Lines(c, front + [node] + below) == Lines(c, front) + [line] + Lines(c, below) by {
        assert Line(c, node) == line by {
          assert |node| == |p| + 1 && node[|node| - 1] == n;
        }
        LinesAppend(c, front + [node], below);
        LinesAppend(c, front, [node]);
        assert [node][..0] == [];
      }
    }
  }

  lemma {:induction false} PathPrecedesExtension(a: Path, b: Path)
    requires a < b
    ensures PathPrecedes(a, b)
    decreases |a|
  {
    if a != [] {
      assert a[1..] < b[1..];
      PathPrecedesExtension(a[1..], b[1..]);
    }
  }

  lemma {:induction false} PathPrecedesAtFork(a: Path, b: Path, k: nat)
    requires k < |a| && k < |b| && a[..k] == b[..k] && Precedes(a[k], b[k])
    ensures PathPrecedes(a, b)
    decreases k
  {
    if k > 0 {
      assert a[0] == a[..k][0] && b[0] == b[..k][0];
      assert a[1..][..k - 1] == a[..k][1..] && b[1..][..k - 1] == b[..k][1..];
      PathPrecedesAtFork(a[1..], b[1..], k - 1);
    }
  }

  lemma {:induction false} PathPrecedesIrreflexive(a: Path)
    ensures !PathPrecedes(a, a)
    decreases |a|
  {
    if a != [] {
      PrecedesIrreflexive(a[0]);
      PathPrecedesIrreflexive(a[1..]);
    }
  }

  /** output visits the nodes in path order: each node before the nodes below
      it, siblings in ascending name order. */
  lemma {:induction false} SubtreeAscending(c: Counts, p: Path)
    ensures PathsAscending(Subtree(c, p))
    decreases Under(c, p), 1
  {
    SortedKeysAscending(Kids(c, p));
    SubtreeListAscending(c, p, SortedKeys(Kids(c, p)));
  }

  lemma {:induction false} SubtreeListAscending(c: Counts, p: Path, names: seq<string>)
    requires forall i :: 0 <= i < |names| ==> p + [names[i]] in c
    requires StrictlyAscending(names)
    ensures PathsAscending(SubtreeList(c, p, names))
    decreases Under(c, p), 0, |names|
  {
    if names != [] {
      var n := names[|names| - 1];
      var init := names[..|names| - 1];
      var node := p + [n];
      UnderShrinks(c, p, n);
      SubtreeListAscending(c, p, init);
      SubtreeAscending(c, node);
      var front := SubtreeList(c, p, init);
      var below := Subtree(c, node);
      var r := front + [node] + below;
      assert r == SubtreeList(c, p, names);
      forall i, j | 0 <= i < j < |r| ensures PathPrecedes(r[i], r[j]) {
        if i < |front| && j >= |front| {
          var x := r[i];
          assert x in front;
          var y := r[j];
          assert y == node || y in below;
          var m := x[|p|];
          var k :| 0 <= k < |init| && init[k] == m;
          assert Precedes(m, n) by {
            assert names[k] == m && names[|names| - 1] == n;
          }
          assert y[..|p|] == p && y[|p|] == n by {
            if y != node {
              assert y in Under(c, node);
              assert y[..|p|] == y[..|node|][..|p|];
            }
          }
          PathPrecedesAtFork(x, y, |p|);
        } else if i == |front| {
          var y := r[j];
          assert y in below && y in Under(c, node);
          assert node == y[..|node|];
          PathPrecedesExtension(node, y);
        }
      }
    }
  }

  /** If each node's parent is in the tree, so is every prefix of a node. */
  lemma {:induction false} PrefixInTree(c: Counts, q: Path, k: nat)
    requires PrefixClosed(c) && q in c && k <= |q|
    ensures q[..k] in c
    decreases |q| - k
  {
    if k < |q| {
      PrefixInTree(c, q, k + 1);
      assert q[..k] == Parent(q[..k + 1]);
    } else {
      assert q[..k] == q;
    }
  }

  /** output visits every node below p. */
  lemma {:induction false} SubtreeComplete(c: Counts, p: Path)
    requires PrefixClosed(c)
    ensures forall q :: q in Subtree(c, p) <==> q in Under(c, p)
    decreases Under(c, p), 1
  {
    SubtreeListComplete(c, p, SortedKeys(Kids(c, p)));
    forall q | q in Under(c, p) ensures q[|p|] in SortedKeys(Kids(c, p)) {
      PrefixInTree(c, q, |p| + 1);
      assert q[..|p| + 1] == p + [q[|p|]];
    }
  }

  lemma {:induction false} SubtreeListComplete(c: Counts, p: Path, names: seq<string>)
    requires PrefixClosed(c)
    requires forall i :: 0 <= i < |names| ==> p + [names[i]] in c
    ensures forall q :: q in SubtreeList(c, p, names) <==> q in Under(c, p) && q[|p|] in names
    decreases Under(c, p), 0, |names|
  {
    if names != [] {
      var n := names[|names| - 1];
      var init := names[..|names| - 1];
      var node := p + [n];
      UnderShrinks(c, p, n);
      SubtreeListComplete(c, p, init);
      SubtreeComplete(c, node);
      forall q | q in Under(c, p) && q[|p|] in names ensures q in SubtreeList(c, p, names) {
        if q[|p|] != n {
          assert q[|p|] in init;
        } else if |q| == |p| + 1 {
          assert q == node;
        } else {
          assert q[..|node|] == node;
          assert q in Under(c, node);
        }
      }
    }
  }

  /** A list without repetitions has as many members as elements. */
  lemma {:induction false} DistinctCardinality(s: seq<Path>)
    requires forall i, j :: 0 <= i < j < |s| ==> s[i] != s[j]
    ensures |set q | q in s| == |s|
  {
    if s != [] {
      var init := s[..|s| - 1];
      DistinctCardinality(init);
      assert (set q | q in s) == (set q | q in init) + {s[|s| - 1]};
    }
  }

  /** Every non-root node is listed exactly once. */
  lemma SubtreeCount(c: Counts)
    requires PrefixClosed(c) && [] in c
    ensures |Subtree(c, [])| == |c| - 1
  {
    var nodes := Subtree(c, []);
    SubtreeAscending(c, []);
    SubtreeComplete(c, []);
    forall i, j | 0 <= i < j < |nodes| ensures nodes[i] != nodes[j] {
      PathPrecedesIrreflexive(nodes[i]);
    }
    DistinctCardinality(nodes);
    assert (set q | q in nodes) == c.Keys - {[]};
  }

  /** The report in full: the root line, then one line for every other node,
      each once, in path order, indented four spaces per level. So there are as
      many lines as nodes. */
  lemma ReportShape(c: Counts)
    requires PrefixClosed(c) && [] in c
    ensures Report(c) == ["<root>: " + Decimal(c[[]])] + Lines(c, Subtree(c, []))
    ensures PathsAscending(Subtree(c, []))
    ensures forall q :: q in Subtree(c, []) <==> q in c && q != []
    ensures |Report(c)| == |c|
  {
    assert Spaces(4) == Indent;
    RenderChildrenIsLines(c, []);
    SubtreeAscending(c, []);
    SubtreeComplete(c, []);
    SubtreeCount(c);
  }
}
