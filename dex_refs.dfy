/** The references a dex file yields, and the first stage of the method-count
    report: choosing which method references to count
    (DexMethodCounts.getMethodRefs). */
module DexRefs {
  import opened Text

  /** A method reference as the dex reader decodes it. Two references are the
      same reference exactly when they are equal as values. */
  datatype MethodRef = MethodRef(declClassName: string, methodName: string, descriptor: string)

  /** A class that the dex file references but does not define, with the
      methods of it that the dex file references. */
  datatype ClassRef = ClassRef(name: string, methodArray: seq<MethodRef>)

  /** What the report reads from a decoded dex file. */
  datatype DexData = DexData(methodRefs: seq<MethodRef>, externalReferences: seq<ClassRef>)

  datatype Filter = All | DefinedOnly | ReferencedOnly

  /** The set of methods of all external classes: every method array flattened
      into one set, so a method listed twice is held once. */
  function ExternalMethodRefs(classes: seq<ClassRef>): set<MethodRef>
  {
    if classes == [] then {}
    else
      var methods := classes[|classes| - 1].methodArray;
      ExternalMethodRefs(classes[..|classes| - 1]) + set m | m in methods
  }

  /** The external set is the union of the method arrays. */
  lemma {:induction false} ExternalMethodRefsUnion(classes: seq<ClassRef>, m: MethodRef)
    ensures m in ExternalMethodRefs(classes) <==>
            exists i :: 0 <= i < |classes| && m in classes[i].methodArray
  {
    if classes != [] {
      var init := classes[..|classes| - 1];
      ExternalMethodRefsUnion(init, m);
      if m in ExternalMethodRefs(init) {
        var i :| 0 <= i < |init| && m in init[i].methodArray;
        assert classes[i] == init[i];
      }
      if i :| 0 <= i < |classes| && m in classes[i].methodArray {
        if i < |init| {
          assert init[i] == classes[i];
        }
      }
    }
  }

  /** Only which classes are listed matters, not their order or repetition. */
  lemma ExternalMethodRefsOfSameClasses(classes: seq<ClassRef>, others: seq<ClassRef>)
    requires forall c :: c in classes <==> c in others
    ensures ExternalMethodRefs(classes) == ExternalMethodRefs(others)
  {
    forall m ensures m in ExternalMethodRefs(classes) <==> m in ExternalMethodRefs(others) {
      ExternalMethodRefsUnion(classes, m);
      ExternalMethodRefsUnion(others, m);
      if i :| 0 <= i < |classes| && m in classes[i].methodArray {
        assert classes[i] in others;
      }
      if i :| 0 <= i < |others| && m in others[i].methodArray {
        assert others[i] in classes;
      }
    }
  }

  /** The references, in their order, whose membership in the external set is
      `external`. */
  function Select(refs: seq<MethodRef>, ext: set<MethodRef>, external: bool): seq<MethodRef>
  {
    if refs == [] then []
    else
      var last := refs[|refs| - 1];
      Select(refs[..|refs| - 1], ext, external) + (if (last in ext) == external then [last] else [])
  }

  /** The references that the report counts under a filter. */
  function Selected(dexData: DexData, filter: Filter): seq<MethodRef>
  {
    match filter
    case All => dexData.methodRefs
    case DefinedOnly => Select(dexData.methodRefs, ExternalMethodRefs(dexData.externalReferences), false)
    case ReferencedOnly => Select(dexData.methodRefs, ExternalMethodRefs(dexData.externalReferences), true)
  }

  /** A reference is kept exactly when it is an input reference on the chosen
      side of the external set. */
  lemma {:induction false} SelectMembership(refs: seq<MethodRef>, ext: set<MethodRef>, external: bool, m: MethodRef)
    ensures m in Select(refs, ext, external) <==> m in refs && (m in ext) == external
  {
    if refs != [] {
      var init := refs[..|refs| - 1];
      SelectMembership(init, ext, external, m);
      assert refs == init + [refs[|refs| - 1]];
    }
  }

  /** Selection keeps the input order: selecting from a concatenation is
      concatenating the selections. */
  lemma {:induction false} SelectAppend(a: seq<MethodRef>, b: seq<MethodRef>, ext: set<MethodRef>, external: bool)
    ensures Select(a + b, ext, external) == Select(a, ext, external) + Select(b, ext, external)
  {
    if b == [] {
      assert a + b == a;
    } else {
      var init := b[..|b| - 1];
      SelectAppend(a, init, ext, external);
      assert (a + b)[..|a + b| - 1] == a + init;
    }
  }

  /** Selecting a single reference keeps it exactly when it is on the chosen side. */
  lemma SelectOne(m: MethodRef, ext: set<MethodRef>, external: bool)
    ensures Select([m], ext, external) == if (m in ext) == external then [m] else []
  {
    assert [m][..0] == [];
  }

  /** The defined-only and referenced-only selections split the input: every
      reference goes to exactly one of them. */
  lemma {:induction false} SelectPartition(refs: seq<MethodRef>, ext: set<MethodRef>)
    ensures |Select(refs, ext, false)| + |Select(refs, ext, true)| == |refs|
    ensures multiset(Select(refs, ext, false)) + multiset(Select(refs, ext, true)) == multiset(refs)
    ensures forall m :: !(m in Select(refs, ext, false) && m in Select(refs, ext, true))
  {
    if refs != [] {
      var init := refs[..|refs| - 1];
      SelectPartition(init, ext);
      assert refs == init + [refs[|refs| - 1]];
    }
    forall m ensures !(m in Select(refs, ext, false) && m in Select(refs, ext, true)) {
      SelectMembership(refs, ext, false, m);
      SelectMembership(refs, ext, true, m);
    }
  }

  /** The progress lines getMethodRefs writes before the tree. */
  function FilterLog(dexData: DexData, filter: Filter): seq<string>
  {
    ["Read in " + Decimal(|dexData.methodRefs|) + " method IDs."] +
    if filter == All then []
    else
      ["Read in " + Decimal(|dexData.externalReferences|) + " external class references.",
       "Read in " + Decimal(|ExternalMethodRefs(dexData.externalReferences)|) + " external method references.",
       "Filtered to " + Decimal(|Selected(dexData, filter)|) + " " +
         (if filter == DefinedOnly then "defined" else "referenced") + " method IDs."]
  }

  /** The loop of getMethodRefs that fills the HashSet of external method
      references. */
  method CollectExternalMethodRefs(externalClassRefs: seq<ClassRef>) returns (externalMethodRefs: set<MethodRef>)
    ensures externalMethodRefs == ExternalMethodRefs(externalClassRefs)
  {
    externalMethodRefs := {};
    for i := 0 to |externalClassRefs|
      invariant externalMethodRefs == ExternalMethodRefs(externalClassRefs[..i])
    {
      var methods := externalClassRefs[i].methodArray;
      for j := 0 to |methods|
        invariant externalMethodRefs == ExternalMethodRefs(externalClassRefs[..i]) + set m | m in methods[..j]
      {
        assert methods[..j + 1] == methods[..j] + [methods[j]];
        externalMethodRefs := externalMethodRefs + {methods[j]};
      }
      assert methods[..|methods|] == methods;
      assert externalClassRefs[..i + 1][..i] == externalClassRefs[..i];
    }
    assert externalClassRefs[..|externalClassRefs|] == externalClassRefs;
  }

  /** The loop of getMethodRefs that fills the ArrayList of kept references. */
  method KeepByFilter(methodRefs: seq<MethodRef>, externalMethodRefs: set<MethodRef>, filter: Filter)
    returns (filteredMethodRefs: seq<MethodRef>)
    requires filter != All
    ensures filteredMethodRefs == Select(methodRefs, externalMethodRefs, filter == ReferencedOnly)
  {
    filteredMethodRefs := [];
    for i := 0 to |methodRefs|
      invariant filteredMethodRefs == Select(methodRefs[..i], externalMethodRefs, filter == ReferencedOnly)
    {
      assert methodRefs[..i + 1][..i] == methodRefs[..i];
      var isExternal := methodRefs[i] in externalMethodRefs;
      if (filter == DefinedOnly && !isExternal) || (filter == ReferencedOnly && isExternal) {
        filteredMethodRefs := filteredMethodRefs + [methodRefs[i]];
      }
    }
    assert methodRefs[..|methodRefs|] == methodRefs;
  }

  /** getMethodRefs: the references to count under the filter, and the lines
      written while choosing them. Under All the external set is never built. */
  method GetMethodRefs(dexData: DexData, filter: Filter) returns (refs: seq<MethodRef>, log: seq<string>)
    ensures refs == Selected(dexData, filter)
    ensures log == FilterLog(dexData, filter)
  {
    var methodRefs := dexData.methodRefs;
    log := ["Read in " + Decimal(|methodRefs|) + " method IDs."];
    if filter == All {
      refs := methodRefs;
      return;
    }

    var externalClassRefs := dexData.externalReferences;
    log := log + ["Read in " + Decimal(|externalClassRefs|) + " external class references."];
    var externalMethodRefs := CollectExternalMethodRefs(externalClassRefs);
    log := log + ["Read in " + Decimal(|externalMethodRefs|) + " external method references."];
    var filteredMethodRefs := KeepByFilter(methodRefs, externalMethodRefs, filter);
    log := log + ["Filtered to " + Decimal(|filteredMethodRefs|) + " " +
                  (if filter == DefinedOnly then "defined" else "referenced") + " method IDs."];
    refs := filteredMethodRefs;
  }
}
