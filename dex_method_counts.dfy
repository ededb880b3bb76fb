/** DexMethodCounts.generate: the method references chosen by the filter are
    counted into the package tree, one walk per reference, and the tree is
    printed after the filter's log lines. */
module DexMethodCounts {
  import opened Wrappers
  import opened Text
  import opened DexRefs
  import opened DexNames
  import opened NamespaceCounts
  import opened Render
  import opened PackageTree

  /** The arguments of generate besides the dex data and the output file; a
      null packageFilter is None. */
  datatype Options = Options(includeClasses: bool, packageFilter: Option<string>, maxDepth: int, filter: Filter)

  /** The name a reference is counted under. */
  function NameOf(m: MethodRef, opts: Options, naming: Naming): string
  {
    PackageName(m.declClassName, opts.includeClasses, naming)
  }

  /** A reference is counted unless there is a packageFilter its name does not
      start with. */
  predicate Admitted(name: string, packageFilter: Option<string>)
  {
    packageFilter.None? || packageFilter.value <= name
  }

  /** The path one reference walks down the tree. */
  function WalkOf(m: MethodRef, opts: Options, naming: Naming): Path
  {
    Walk(SplitOnDots(NameOf(m, opts, naming)), opts.maxDepth)
  }

  /** The deepest a walk goes: maxDepth, or the root alone when maxDepth is
      not positive. */
  function MaxDepth(opts: Options): nat
  {
    if opts.maxDepth < 0 then 0 else opts.maxDepth
  }

  /** The walks of the admitted references, in the order of the references. */
  function Walks(refs: seq<MethodRef>, opts: Options, naming: Naming): (walks: seq<Path>)
    ensures |walks| <= |refs|
    ensures opts.packageFilter.None? ==> |walks| == |refs|
    ensures forall i :: 0 <= i < |walks| ==> |walks[i]| <= MaxDepth(opts)
  {
    if refs == [] then []
    else
      var init := Walks(refs[..|refs| - 1], opts, naming);
      var m := refs[|refs| - 1];
      if Admitted(NameOf(m, opts, naming), opts.packageFilter) then init + [WalkOf(m, opts, naming)] else init
  }

  /** One more reference either walks the tree or, rejected by the filter,
      leaves it as it was. */
  lemma FoldStep(refs: seq<MethodRef>, k: nat, opts: Options, naming: Naming)
    requires k < |refs|
    ensures Fold(Walks(refs[..k + 1], opts, naming)) ==
            if Admitted(NameOf(refs[k], opts, naming), opts.packageFilter)
            then AddWalk(Fold(Walks(refs[..k], opts, naming)), WalkOf(refs[k], opts, naming))
            else Fold(Walks(refs[..k], opts, naming))
  {
    assert refs[..k + 1][..k] == refs[..k];
  }

  /** The admitted references, in order, each as often as it occurs. */
  function AdmittedRefs(refs: seq<MethodRef>, opts: Options, naming: Naming): (r: seq<MethodRef>)
    ensures forall m :: m in r <==> m in refs && Admitted(NameOf(m, opts, naming), opts.packageFilter)
  {
    if refs == [] then []
    else
      var m := refs[|refs| - 1];
      AdmittedRefs(refs[..|refs| - 1], opts, naming) +
      (if Admitted(NameOf(m, opts, naming), opts.packageFilter) then [m] else [])
  }

  /** Each admitted reference is counted as often as it occurs, and a
      reference that is not admitted not at all. */
  lemma {:induction false} AdmittedRefsMultiplicity(refs: seq<MethodRef>, opts: Options, naming: Naming, m: MethodRef)
    ensures multiset(AdmittedRefs(refs, opts, naming))[m] ==
              if Admitted(NameOf(m, opts, naming), opts.packageFilter) then multiset(refs)[m] else 0
  {
    if refs != [] {
      var init := refs[..|refs| - 1];
      AdmittedRefsMultiplicity(init, opts, naming, m);
      assert refs == init + [refs[|refs| - 1]];
    }
  }

  /** Admitting keeps the order: the admitted references of two runs are
      those of the first run followed by those of the second. */
  lemma {:induction false} AdmittedRefsAppend(a: seq<MethodRef>, b: seq<MethodRef>, opts: Options, naming: Naming)
    ensures AdmittedRefs(a + b, opts, naming) == AdmittedRefs(a, opts, naming) + AdmittedRefs(b, opts, naming)
    decreases |b|
  {
    if b == [] {
      assert a + b == a;
    } else {
      var init, m := b[..|b| - 1], b[|b| - 1];
      var last := if Admitted(NameOf(m, opts, naming), opts.packageFilter) then [m] else [];
      AdmittedRefsAppend(a, init, opts, naming);
      assert (a + b)[..|a + b| - 1] == a + init && (a + b)[|a + b| - 1] == m;
      assert AdmittedRefs(a + b, opts, naming) == AdmittedRefs(a + init, opts, naming) + last;
      assert AdmittedRefs(b, opts, naming) == AdmittedRefs(init, opts, naming) + last;
      AppendAssoc(AdmittedRefs(a, opts, naming), AdmittedRefs(init, opts, naming), last);
    }
  }

  lemma {:induction false} WalksOfAdmitted(refs: seq<MethodRef>, opts: Options, naming: Naming)
    ensures |Walks(refs, opts, naming)| == |AdmittedRefs(refs, opts, naming)|
  {
    if refs != [] {
      WalksOfAdmitted(refs[..|refs| - 1], opts, naming);
    }
  }

  /** The root count is the number of references that pass packageFilter. */
  lemma RootCount(refs: seq<MethodRef>, opts: Options, naming: Naming)
    ensures [] in Fold(Walks(refs, opts, naming))
    ensures Fold(Walks(refs, opts, naming))[[]] == |AdmittedRefs(refs, opts, naming)|
  {
    FoldRoot(Walks(refs, opts, naming));
    WalksOfAdmitted(refs, opts, naming);
  }

  /** A reference whose name does not start with packageFilter changes no
      node, the root included. */
  lemma RejectedChangesNothing(refs: seq<MethodRef>, m: MethodRef, opts: Options, naming: Naming)
    requires !Admitted(NameOf(m, opts, naming), opts.packageFilter)
    ensures Fold(Walks(refs + [m], opts, naming)) == Fold(Walks(refs, opts, naming))
  {
    FoldStep(refs + [m], |refs|, opts, naming);
    assert (refs + [m])[..|refs|] == refs && (refs + [m])[..|refs| + 1] == refs + [m];
  }

  /** An admitted reference adds one to every node on its walk, creating the
      missing ones, and changes no other node. */
  lemma AdmittedAddsOne(refs: seq<MethodRef>, m: MethodRef, opts: Options, naming: Naming)
    requires Admitted(NameOf(m, opts, naming), opts.packageFilter)
    ensures forall p :: p in Fold(Walks(refs + [m], opts, naming)) <==>
                        p in Fold(Walks(refs, opts, naming)) || p <= WalkOf(m, opts, naming)
    ensures forall p :: Get(Fold(Walks(refs + [m], opts, naming)), p) ==
                        Get(Fold(Walks(refs, opts, naming)), p) + (if p <= WalkOf(m, opts, naming) then 1 else 0)
  {
    FoldStep(refs + [m], |refs|, opts, naming);
    assert (refs + [m])[..|refs|] == refs && (refs + [m])[..|refs| + 1] == refs + [m];
  }

  /** No node is deeper than maxDepth. */
  lemma TreeDepth(refs: seq<MethodRef>, opts: Options, naming: Naming)
    ensures forall p :: p in Fold(Walks(refs, opts, naming)) ==> |p| <= MaxDepth(opts)
  {
    FoldDepth(Walks(refs, opts, naming), MaxDepth(opts));
  }

  /** Every node's children add up to at most its own count, so in particular
      no child counts more than its parent. */
  lemma ChildrenBounded(refs: seq<MethodRef>, opts: Options, naming: Naming, p: Path, names: seq<string>)
    requires Distinct(names)
    ensures ChildSum(Fold(Walks(refs, opts, naming)), p, names) <= Get(Fold(Walks(refs, opts, naming)), p)
    ensures ParentDominates(Fold(Walks(refs, opts, naming)))
  {
    FoldChildrenBounded(Walks(refs, opts, naming), p, names);
    FoldParentDominates(Walks(refs, opts, naming));
  }

  lemma {:induction false} WalksAppend(a: seq<MethodRef>, b: seq<MethodRef>, opts: Options, naming: Naming)
    ensures Walks(a + b, opts, naming) == Walks(a, opts, naming) + Walks(b, opts, naming)
  {
    if b == [] {
      assert a + b == a;
    } else {
      WalksAppend(a, b[..|b| - 1], opts, naming);
      assert (a + b)[..|a + b| - 1] == a + b[..|b| - 1];
    }
  }

  /** Counting the same references in another order walks the same paths. */
  /** Taking one reference out of a run takes its walks out of the run's
      walks. */
  lemma WalksRemoveOne(a: seq<MethodRef>, k: nat, opts: Options, naming: Naming)
    requires k < |a|
    ensures multiset(Walks(a, opts, naming)) ==
            multiset(Walks(a[..k] + a[k + 1..], opts, naming)) + multiset(Walks([a[k]], opts, naming))
  {
    assert a == a[..k] + [a[k]] + a[k + 1..];
    WalksAppend(a[..k] + [a[k]], a[k + 1..], opts, naming);
    WalksAppend(a[..k], [a[k]], opts, naming);
    WalksAppend(a[..k], a[k + 1..], opts, naming);
  }

  lemma {:induction false} WalksPermutation(a: seq<MethodRef>, b: seq<MethodRef>, opts: Options, naming: Naming)
    requires multiset(a) == multiset(b)
    ensures multiset(Walks(a, opts, naming)) == multiset(Walks(b, opts, naming))
    decreases |b|
  {
    if b != [] {
      var x := b[|b| - 1];
      var front := b[..|b| - 1];
      assert b == front + [x];
      assert x in multiset(a);
      var k :| 0 <= k < |a| && a[k] == x;
      assert a == a[..k] + [x] + a[k + 1..];
      var rest := a[..k] + a[k + 1..];
      assert multiset(a) == multiset(a[..k]) + multiset([x]) + multiset(a[k + 1..]);
      assert multiset(rest) == multiset(a) - multiset([x]);
      assert multiset(front) == multiset(b) - multiset([x]);
      WalksPermutation(rest, front, opts, naming);
      WalksRemoveOne(a, k, opts, naming);
      WalksAppend(front, [x], opts, naming);
    }
  }


  /** The tree, and so the printed report, does not depend on the order the
      references come in. */
  lemma ReportOrderIndependent(a: seq<MethodRef>, b: seq<MethodRef>, opts: Options, naming: Naming)
    requires multiset(a) == multiset(b)
    ensures Fold(Walks(a, opts, naming)) == Fold(Walks(b, opts, naming))
    ensures Report(Fold(Walks(a, opts, naming))) == Report(Fold(Walks(b, opts, naming)))
  {
    WalksPermutation(a, b, opts, naming);
    FoldPermutation(Walks(a, opts, naming), Walks(b, opts, naming));
    FoldRoot(Walks(a, opts, naming));
  }

  /** The tree generate builds from the references the filter keeps. */
  function TreeOf(dexData: DexData, opts: Options, naming: Naming): Counts
  {
    Fold(Walks(Selected(dexData, opts.filter), opts, naming))
  }

  /** The tree generate prints: the root line with the number of admitted
      references, then every other node exactly once, in pre-order with the
      children in ascending name order, one line per node. */
  lemma GenerateReportShape(dexData: DexData, opts: Options, naming: Naming)
    ensures var c := TreeOf(dexData, opts, naming);
            [] in c &&
            Report(c) == ["<root>: " + Decimal(|AdmittedRefs(Selected(dexData, opts.filter), opts, naming)|)] +
                         Lines(c, Subtree(c, [])) &&
            PathsAscending(Subtree(c, [])) &&
            (forall q :: q in Subtree(c, []) <==> q in c && q != []) &&
            |Report(c)| == |c|
  {
    var refs := Selected(dexData, opts.filter);
    FoldParentDominates(Walks(refs, opts, naming));
    RootCount(refs, opts, naming);
    ReportShape(TreeOf(dexData, opts, naming));
  }

  /** generate: what it writes, line by line. The dex reader's naming
      functions are given as `naming`. */
  method Generate(dexData: DexData, opts: Options, naming: Naming) returns (report: seq<string>)
    ensures report == FilterLog(dexData, opts.filter) + Report(TreeOf(dexData, opts, naming))
  {
    var methodRefs, log := GetMethodRefs(dexData, opts.filter);
    var packageTree := new PackageTree();
    for k := 0 to |methodRefs|
      invariant fresh(packageTree) && fresh(packageTree.Repr) && packageTree.Valid()
      invariant packageTree.counts == Fold(Walks(methodRefs[..k], opts, naming))
    {
      var methodRef := methodRefs[k];
      FoldStep(methodRefs, k, opts, naming);
      var packageName := PackageName(methodRef.declClassName, opts.includeClasses, naming);
      if !Admitted(packageName, opts.packageFilter) {
        continue;
      }
      var packageNamePieces := SplitOnDots(packageName);
      packageTree.Add(packageNamePieces, opts.maxDepth);
    }
    assert methodRefs[..|methodRefs|] == methodRefs;
    var lines := packageTree.Output(packageTree.root, [], "");
    assert "" + Indent == Indent;
    report := log + lines;
  }

  /** A dotted name splits at its dots. */
  lemma SplitExample()
    ensures SplitOnDots("com.foo.Bar") == ["com", "foo", "Bar"]
  {
    var pieces := ["com", "foo", "Bar"];
    assert JoinDots(pieces) == "com.foo.Bar";
    SegmentsOfJoin(pieces);
    assert "com.foo.Bar"[3] == '.';
  }

  /** One walk down to com from a fresh root: the root and com count one. */
  lemma FoldOneWalk()
    ensures Fold([["com"]]) == map[[] := 1, ["com"] := 1]
  {
    var w: Path := ["com"];
    assert Fold([w][..0]) == map[[] := 0];
    forall p | p in Prefixes(w) ensures p == [] || p == w {
      if |p| == 1 {
        assert p == w[..1];
      }
    }
  }

  /** In that tree the root has the one child com, and com has none. */
  lemma KidsOneChild()
    ensures Kids(map[[] := 1, ["com"] := 1], []) == {"com"}
    ensures Kids(map[[] := 1, ["com"] := 1], ["com"]) == {}
  {
    var c: Counts := map[[] := 1, ["com"] := 1];
    var w: Path := ["com"];
    forall n | [] + [n] in c ensures n == "com" {
      assert [] + [n] == [n];
      assert |[n]| == 1;
      assert [n] == w;
      assert n == [n][0];
    }
    forall n ensures w + [n] !in c {
      assert |w + [n]| == 2;
    }
    assert [] + ["com"] == w;
  }

  /** The tree with the root and com printed: the root line, then com one
      level in. */
  lemma ReportOneChild()
    ensures Report(map[[] := 1, ["com"] := 1]) == ["<root>: 1", "    com: 1"]
  {
    var c: Counts := map[[] := 1, ["com"] := 1];
    var w: Path := ["com"];
    KidsOneChild();
    assert SortedKeys({"com"}) == ["com"] by {
      assert Pick({"com"}) == "com";
      assert {"com"} - {"com"} == {};
    }
    assert RenderChildren(c, w, Indent + Indent) == RenderList(c, w, [], Indent + Indent) == [];
    assert Decimal(1) == "1";
    assert Entry(Indent, "com", 1) == "    com: 1";
    assert ["com"][..0] == [] && [] + ["com"] == w;
    assert RenderList(c, [], ["com"], Indent) == [] + ["    com: 1"] + [];
    assert RenderChildren(c, [], Indent) == ["    com: 1"];
    assert "<root>: " + Decimal(c[[]]) == "<root>: 1";
  }

  /** A reference in com.foo.Bar counted with maxDepth 1 gives the root and
      com one each: every node on the walk gains exactly one. */
  lemma ExampleDepthOne(m: MethodRef, opts: Options, naming: Naming)
    requires NameOf(m, opts, naming) == "com.foo.Bar"
    requires opts.maxDepth == 1 && Admitted("com.foo.Bar", opts.packageFilter)
    ensures Fold(Walks([m], opts, naming)) == map[[] := 1, ["com"] := 1]
    ensures Report(Fold(Walks([m], opts, naming))) == ["<root>: 1", "    com: 1"]
  {
    SplitExample();
    assert WalkOf(m, opts, naming) == ["com"];
    assert [m][..0] == [];
    assert Walks([m], opts, naming) == [["com"]];
    FoldOneWalk();
    ReportOneChild();
  }
}
