/** What the report's package tree holds, as a value: the count of every node,
    keyed by the node's path of names from the root (the root's path is []).
    This is the specification the in-place tree of PackageTree is proved
    against. */
module NamespaceCounts {

  type Path = seq<string>
  type Counts = map<Path, nat>

  /** All prefixes of a path, [] and the path itself included. */
  function Prefixes(w: Path): (ps: set<Path>)
    ensures forall p :: p in ps <==> p <= w
  {
    assert forall p :: p <= w ==> p == w[..|p|];
    set j | 0 <= j <= |w| :: w[..j]
  }

  /** The count of a node, 0 for a node not created yet. */
  function Get(c: Counts, p: Path): nat
  {
    if p in c then c[p] else 0
  }

  /** The effect of one reference whose walk is w: every node from the root down
      to the end of w gains one, and the nodes of w missing so far are created
      (with count 0, before they gain one). */
  function AddWalk(c: Counts, w: Path): (r: Counts)
  {
    map p | p in c.Keys + Prefixes(w) :: Get(c, p) + (if p <= w then 1 else 0)
  }

  /** The path a split name walks: its pieces, cut after maxDepth of them (the
      loop runs while i < pieces.length && i < maxDepth). */
  function Walk(pieces: seq<string>, maxDepth: int): (w: Path)
    ensures w <= pieces
    ensures w == [] || |w| <= maxDepth
    ensures |w| == |pieces| || |w| == maxDepth || (w == [] && maxDepth < 0)
  {
    pieces[..if maxDepth <= 0 then 0 else if maxDepth < |pieces| then maxDepth else |pieces|]
  }

  /** The tree after folding the walks into a fresh root (count 0, no children). */
  function Fold(walks: seq<Path>): Counts
  {
    if walks == [] then map[[] := 0]
    else AddWalk(Fold(walks[..|walks| - 1]), walks[|walks| - 1])
  }

  /** How many of the walks pass through (or end at) the node at p. */
  function Hits(walks: seq<Path>, p: Path): nat
  {
    if walks == [] then 0
    else Hits(walks[..|walks| - 1], p) + (if p <= walks[|walks| - 1] then 1 else 0)
  }

  /** The tree in closed form: a node exists when it is the root or some walk
      passes through it, and its count is the number of walks passing through it.
      So each reference adds exactly one to every node of its walk and to no
      other node. */
  lemma {:induction false} FoldIsHits(walks: seq<Path>, p: Path)
    ensures p in Fold(walks) <==> p == [] || Hits(walks, p) > 0
    ensures p in Fold(walks) ==> Fold(walks)[p] == Hits(walks, p)
  {
    if walks != [] {
      FoldIsHits(walks[..|walks| - 1], p);
    }
  }

  /** Every walk passes through the root. */
  lemma {:induction false} HitsRoot(walks: seq<Path>)
    ensures Hits(walks, []) == |walks|
  {
    if walks != [] {
      HitsRoot(walks[..|walks| - 1]);
    }
  }

  /** The root count is the number of references folded in. */
  lemma FoldRoot(walks: seq<Path>)
    ensures [] in Fold(walks) && Fold(walks)[[]] == |walks|
  {
    FoldIsHits(walks, []);
    HitsRoot(walks);
  }

  /** A walk through a node passes through its ancestors. */
  lemma {:induction false} HitsAncestor(walks: seq<Path>, p: Path, q: Path)
    requires p <= q
    ensures Hits(walks, q) <= Hits(walks, p)
  {
    if walks != [] {
      HitsAncestor(walks[..|walks| - 1], p, q);
    }
  }

  /** Some walk passes through a node with hits. */
  lemma {:induction false} HitsWitness(walks: seq<Path>, p: Path)
    requires Hits(walks, p) > 0
    ensures exists i :: 0 <= i < |walks| && p <= walks[i]
  {
    var init := walks[..|walks| - 1];
    if Hits(init, p) > 0 {
      HitsWitness(init, p);
      var i :| 0 <= i < |init| && p <= init[i];
      assert walks[i] == init[i];
    } else {
      assert p <= walks[|walks| - 1];
    }
  }

  /** The path of the parent of a non-root node. */
  function Parent(q: Path): (p: Path)
    requires q != []
    ensures p < q && |p| == |q| - 1
  {
    q[..|q| - 1]
  }

  /** Every node but the root has its parent in the tree. */
  ghost predicate PrefixClosed(c: Counts)
  {
    forall q {:trigger Parent(q)} :: q in c && q != [] ==> Parent(q) in c
  }

  /** Every node but the root has its parent in the tree, and a node's count
      never exceeds its parent's. */
  ghost predicate ParentDominates(c: Counts)
  {
    PrefixClosed(c) && forall q {:trigger Parent(q)} :: q in c && q != [] ==> c[q] <= c[Parent(q)]
  }

  lemma FoldParentDominates(walks: seq<Path>)
    ensures ParentDominates(Fold(walks))
  {
    var c := Fold(walks);
    forall q | q in c && q != [] ensures Parent(q) in c && c[q] <= c[Parent(q)] {
      var parent := Parent(q);
      FoldIsHits(walks, q);
      FoldIsHits(walks, parent);
      HitsAncestor(walks, parent, q);
    }
  }

  /** No name is listed twice. */
  ghost predicate Distinct(names: seq<string>)
  {
    forall i, j :: 0 <= i < j < |names| ==> names[i] != names[j]
  }

  /** The counts of the children of p named in `names`, added up (0 for a
      child not in the tree). */
  function ChildSum(c: Counts, p: Path, names: seq<string>): nat
  {
    if names == [] then 0
    else ChildSum(c, p, names[..|names| - 1]) + Get(c, p + [names[|names| - 1]])
  }

  /** The hits of the children of p named in `names`, added up. */
  function ChildHits(walks: seq<Path>, p: Path, names: seq<string>): nat
  {
    if names == [] then 0
    else ChildHits(walks, p, names[..|names| - 1]) + Hits(walks, p + [names[|names| - 1]])
  }

  /** How many of the children of p named in `names` the walk w passes
      through. */
  function Through(p: Path, names: seq<string>, w: Path): nat
  {
    if names == [] then 0
    else Through(p, names[..|names| - 1], w) + (if p + [names[|names| - 1]] <= w then 1 else 0)
  }

  lemma ChildPrefix(p: Path, n: string, w: Path)
    ensures p + [n] <= w <==> p < w && w[|p|] == n
  {
    if p < w && w[|p|] == n {
      assert w[..|p| + 1] == w[..|p|] + [w[|p|]];
    }
    if p + [n] <= w {
      assert w[..|p|] == (p + [n])[..|p|];
    }
  }

  /** A walk passes through at most one child of p: the one named by its next
      piece. */
  lemma {:induction false} ThroughOne(p: Path, names: seq<string>, w: Path)
    requires Distinct(names)
    ensures Through(p, names, w) == if p < w && w[|p|] in names then 1 else 0
  {
    if names != [] {
      var init := names[..|names| - 1];
      var n := names[|names| - 1];
      ThroughOne(p, init, w);
      ChildPrefix(p, n, w);
      assert names == init + [n];
      if p < w && w[|p|] == n {
        assert n !in init;
      }
    }
  }

  lemma {:induction false} ChildHitsLast(walks: seq<Path>, p: Path, names: seq<string>)
    requires walks != []
    ensures ChildHits(walks, p, names) ==
            ChildHits(walks[..|walks| - 1], p, names) + Through(p, names, walks[|walks| - 1])
  {
    if names != [] {
      ChildHitsLast(walks, p, names[..|names| - 1]);
    }
  }

  lemma {:induction false} ChildHitsNone(p: Path, names: seq<string>)
    ensures ChildHits([], p, names) == 0
  {
    if names != [] {
      ChildHitsNone(p, names[..|names| - 1]);
    }
  }

  /** The walks through the children of p are among the walks through p. */
  lemma {:induction false} ChildHitsBounded(walks: seq<Path>, p: Path, names: seq<string>)
    requires Distinct(names)
    ensures ChildHits(walks, p, names) <= Hits(walks, p)
  {
    if walks == [] {
      ChildHitsNone(p, names);
    } else {
      ChildHitsBounded(walks[..|walks| - 1], p, names);
      ChildHitsLast(walks, p, names);
      ThroughOne(p, names, walks[|walks| - 1]);
    }
  }

  lemma {:induction false} ChildSumIsHits(walks: seq<Path>, p: Path, names: seq<string>)
    ensures ChildSum(Fold(walks), p, names) == ChildHits(walks, p, names)
  {
    if names != [] {
      ChildSumIsHits(walks, p, names[..|names| - 1]);
      FoldIsHits(walks, p + [names[|names| - 1]]);
    }
  }

  /** The counts of the children of a node add up to at most its own count:
      every walk through a child passes through the node, and through no other
      child of it. */
  lemma FoldChildrenBounded(walks: seq<Path>, p: Path, names: seq<string>)
    requires Distinct(names)
    ensures ChildSum(Fold(walks), p, names) <= Get(Fold(walks), p)
  {
    ChildSumIsHits(walks, p, names);
    ChildHitsBounded(walks, p, names);
    FoldIsHits(walks, p);
    if p == [] {
      HitsRoot(walks);
      FoldRoot(walks);
    }
  }

  /** No node is deeper than the longest walk. */
  lemma FoldDepth(walks: seq<Path>, depth: nat)
    requires forall i :: 0 <= i < |walks| ==> |walks[i]| <= depth
    ensures forall p :: p in Fold(walks) ==> |p| <= depth
  {
    forall p | p in Fold(walks) ensures |p| <= depth {
      FoldIsHits(walks, p);
      if p != [] {
        HitsWitness(walks, p);
      }
    }
  }

  lemma {:induction false} HitsAppend(a: seq<Path>, b: seq<Path>, p: Path)
    ensures Hits(a + b, p) == Hits(a, p) + Hits(b, p)
  {
    if b == [] {
      assert a + b == a;
    } else {
      HitsAppend(a, b[..|b| - 1], p);
      assert (a + b)[..|a + b| - 1] == a + b[..|b| - 1];
    }
  }

  /** Hits depend only on which walks there are, not on their order. */
  lemma {:induction false} HitsPermutation(a: seq<Path>, b: seq<Path>, p: Path)
    requires multiset(a) == multiset(b)
    ensures Hits(a, p) == Hits(b, p)
    decreases |b|
  {
    if b != [] {
      var x := b[|b| - 1];
      assert b == b[..|b| - 1] + [x];
      assert x in multiset(a);
      var k :| 0 <= k < |a| && a[k] == x;
      assert a == a[..k] + [x] + a[k + 1..];
      var rest := a[..k] + a[k + 1..];
      assert multiset(a) == multiset(a[..k]) + multiset([x]) + multiset(a[k + 1..]);
      assert multiset(b) == multiset(b[..|b| - 1]) + multiset([x]);
      assert multiset(rest) == multiset(a[..k]) + multiset(a[k + 1..]);
      assert multiset(rest) == multiset(a) - multiset([x]);
      assert multiset(b[..|b| - 1]) == multiset(b) - multiset([x]);
      HitsPermutation(rest, b[..|b| - 1], p);
      HitsAppend(a[..k] + [x], a[k + 1..], p);
      HitsAppend(a[..k], [x], p);
      HitsAppend(a[..k], a[k + 1..], p);
      assert [x][..0] == [];
    }
  }

  /** Folding the same walks in any order builds the same tree. */
  lemma FoldPermutation(a: seq<Path>, b: seq<Path>)
    requires multiset(a) == multiset(b)
    ensures Fold(a) == Fold(b)
  {
    forall p ensures (p in Fold(a) <==> p in Fold(b)) && (p in Fold(a) ==> Fold(a)[p] == Fold(b)[p]) {
      FoldIsHits(a, p);
      FoldIsHits(b, p);
      HitsPermutation(a, b, p);
    }
  }

  /** The state of one walk while it is under way: the nodes above `at` have
      gained one, `at` exists with its old count. Stepping down to a child keeps
      this shape. */
  lemma WalkStep(c: Counts, at: Path, name: string)
    ensures AddWalk(c, at)[at + [name] := Get(c, at + [name])] ==
            AddWalk(c, at + [name])[at + [name] := Get(c, at + [name])]
  {
    var next := at + [name];
    forall p | p in Prefixes(next) && p != next ensures p in Prefixes(at) {
      assert p == next[..|p|] && |p| <= |at|;
      assert p == at[..|p|];
    }
    var before := AddWalk(c, at)[next := Get(c, next)];
    var after := AddWalk(c, next)[next := Get(c, next)];
    assert before.Keys == after.Keys;
    forall p | p in before ensures before[p] == after[p] {
      if p != next {
        assert p in Prefixes(next) <==> p in Prefixes(at);
      }
    }
  }

  /** One step of the walk at the node at p, going on to its child n: p gains
      one, and the child is created with count 0 when it is missing. */
  function StepDown(c: Counts, p: Path, n: string): (r: Counts)
    requires p in c
  {
    var gained := c[p := c[p] + 1];
    if p + [n] in c then gained else gained[p + [n] := 0]
  }

  /** The tree part way through a walk that has reached w: every node above w
      has gained one, and w exists with its old count (0 when just created). */
  function Reached(c: Counts, w: Path): (r: Counts)
    ensures w in r && r[w] == Get(c, w)
  {
    AddWalk(c, w)[w := Get(c, w)]
  }

  /** Stepping down from the node a walk has reached keeps the walk's shape:
      the nodes above the new position have gained one and the new position
      holds its old count (0 when it was just created). */
  lemma StepDownWalk(c: Counts, at: Path, name: string)
    ensures StepDown(Reached(c, at), at, name) == Reached(c, at + [name])
  {
    var next := at + [name];
    var cur := Reached(c, at);
    assert next !in Prefixes(at);
    assert cur[at := cur[at] + 1] == AddWalk(c, at);
    assert next in cur <==> next in c;
    if next in c {
      assert AddWalk(c, at)[next := Get(c, next)] == AddWalk(c, at);
    }
    WalkStep(c, at, name);
  }

  /** The walk goes one piece further. */
  lemma SliceStep(pieces: seq<string>, i: nat)
    requires i < |pieces|
    ensures pieces[..i + 1] == pieces[..i] + [pieces[i]]
  {
  }

  /** Appending is associative. */
  lemma AppendAssoc<T>(a: seq<T>, b: seq<T>, c: seq<T>)
    ensures (a + b) + c == a + (b + c)
  {
  }

  /** Before the walk starts the tree is unchanged; after the last node gains
      one, the walk is complete. */
  lemma WalkEnds(c: Counts, w: Path)
    requires [] in c
    ensures Reached(c, []) == c
    ensures Reached(c, w)[w := Get(c, w) + 1] == AddWalk(c, w)
  {
  }
}
