# Method counts by package, and HTTP response validation

This project models two pieces of the jdroid repository and proves properties of them.

- **DexMethodCounts** (from the Gradle plugin). It reads the method references of a dex file. It can keep only the references the file defines, or only the ones it references from outside. It maps each reference to its package or class name. It drops names that do not start with a package filter. Each remaining name is split on dots and walked down a tree of `Node` objects, at most `maxDepth` levels deep. Every node on the walk gains one, and missing nodes are created on the way. The tree is then printed:
  - a `<root>` line first;
  - then, for every node, the node's name and count, indented four spaces per level;
  - children are printed in ascending name order, each directly followed by its own subtree.

  The model keeps the source's imperative form:
  - `PackageTree.Node` is a class with a `count` field and a `children` map that the methods update in place.
  - `PackageTree.PackageTree` holds the root and ghost bookkeeping: the node at each path, and the count of each path.
  - `DexMethodCounts.Generate` is the loop over the references.
  - The tree walk and the printing are methods with loops.

  Every method is proved against pure specification functions:
  - `NamespaceCounts.Fold` and `NamespaceCounts.Hits` give the counts;
  - `Render.Report` and `Render.Lines` give the printed lines.

  Lemmas then prove what those functions mean:
  - every node counts the admitted references whose walk passes through it;
  - the root counts all admitted references;
  - a parent counts at least as much as all of its children together;
  - no node is deeper than `maxDepth`;
  - the report lists every node exactly once, in pre-order with ascending names, so it has one line per node;
  - the report does not depend on the order of the references.

- **AbstractHttpResponseValidator** (from the Android library) judges a web-service response. It looks at the response's class (success, client error, server error), its HTTP status and its `status-code` header.
  - `getErrorCode` maps the header to an error code. A missing header is a server error. `"200"` means no code. The concrete validator's lookup is tried before the common one. A value neither lookup knows is an application error of the caller's default code.
  - `validateResponse` then throws a business exception, an API-version or user-token exception, a connection exception on status 504, or an application exception, or it lets the response through.
  - These are pure functions. Each thrown exception is a `Failure` value inside `Rejected`.
  - Lemmas characterise exactly when a response is accepted, and what each rejection carries.

Both source files are Java. The model's Java-facing assumptions:
- Java `String.compareTo` order, used by `TreeMap`, is `Text.Precedes`: lexicographic on characters.
- `String.split("\\.")` is `DexNames.SplitOnDots`. Without a dot, the whole string is the only piece. Otherwise trailing empty pieces are dropped.
- `startsWith` is the sequence prefix `<=`.
- `PrintWriter.println` output is the sequence of lines the method returns.

## Model

| member | source | states |
|---|---|---|
| DexRefs.GetMethodRefs | jdroid-gradle-plugin/src/main/java/info/persistent/dex/DexMethodCounts.java:103-134 | the references returned are all of them for ALL, otherwise those whose membership in the external set matches the filter, in their original order; the lines written are the progress messages, whose counts are those of the input, the external set and the result |
| DexRefs.CollectExternalMethodRefs | jdroid-gradle-plugin/src/main/java/info/persistent/dex/DexMethodCounts.java:113-118 | the loop builds exactly the union of the external classes' method arrays |
| DexRefs.KeepByFilter | jdroid-gradle-plugin/src/main/java/info/persistent/dex/DexMethodCounts.java:121-128 | the loop keeps, in order, exactly the references that are external for REFERENCED_ONLY and not external for DEFINED_ONLY |
| DexRefs.ExternalMethodRefsUnion | jdroid-gradle-plugin/src/main/java/info/persistent/dex/DexMethodCounts.java:113-118 | a method is in the external set exactly when some external class lists it |
| DexRefs.ExternalMethodRefsOfSameClasses | jdroid-gradle-plugin/src/main/java/info/persistent/dex/DexMethodCounts.java:113-118 | the external set depends only on which classes are listed, not on their order or repetition |
| DexRefs.SelectMembership | jdroid-gradle-plugin/src/main/java/info/persistent/dex/DexMethodCounts.java:121-128 | a reference survives the filter exactly when it is in the input and its externality is the one asked for |
| DexRefs.SelectAppend | jdroid-gradle-plugin/src/main/java/info/persistent/dex/DexMethodCounts.java:121-128 | filtering a concatenation is concatenating the filtered parts, so the order of references is kept |
| DexRefs.SelectPartition | jdroid-gradle-plugin/src/main/java/info/persistent/dex/DexMethodCounts.java:122-127 | DEFINED_ONLY and REFERENCED_ONLY split the references between them: the two counts add up to the total, the two multisets add up to the input, and no reference is in both |
| DexNames.PackageName | jdroid-gradle-plugin/src/main/java/info/persistent/dex/DexMethodCounts.java:74-76 | with classes included, the dotted class name with each '$' turned into '.' and every other character kept, so of the same length and with no '$' left; otherwise the package name only |
| DexNames.ReplaceChar | jdroid-gradle-plugin/src/main/java/info/persistent/dex/DexMethodCounts.java:75 | replace('$', '.') keeps the length and changes exactly the characters equal to the one replaced |
| DexNames.SplitOnDotsKeepsSegments | jdroid-gradle-plugin/src/main/java/info/persistent/dex/DexMethodCounts.java:81 | split keeps a leading run of the pieces between the dots and drops only empty ones after it; no piece holds a dot; a name without a dot is its own single piece; the last piece kept is not empty |
| DexNames.JoinSegments | jdroid-gradle-plugin/src/main/java/info/persistent/dex/DexMethodCounts.java:81 | joining the pieces between the dots with dots gives back the name |
| DexNames.SegmentsOfJoin | jdroid-gradle-plugin/src/main/java/info/persistent/dex/DexMethodCounts.java:81 | splitting dot-free pieces joined by dots gives back the pieces |
| NamespaceCounts.Walk | jdroid-gradle-plugin/src/main/java/info/persistent/dex/DexMethodCounts.java:83 | the walk of a name is a prefix of its pieces, no longer than maxDepth, and stops only at the end of the pieces or at maxDepth |
| NamespaceCounts.FoldIsHits | jdroid-gradle-plugin/src/main/java/info/persistent/dex/DexMethodCounts.java:81-94 | a node exists exactly when it is the root or some walk passes through it, and its count is the number of walks that pass through it |
| NamespaceCounts.FoldRoot | jdroid-gradle-plugin/src/main/java/info/persistent/dex/DexMethodCounts.java:81-94 | the root exists and counts every walk |
| NamespaceCounts.HitsAncestor | jdroid-gradle-plugin/src/main/java/info/persistent/dex/DexMethodCounts.java:83-94 | a node is passed through by no more walks than any of its ancestors |
| NamespaceCounts.HitsWitness | jdroid-gradle-plugin/src/main/java/info/persistent/dex/DexMethodCounts.java:83-94 | a node with a positive count lies on the walk of some reference |
| NamespaceCounts.FoldParentDominates | jdroid-gradle-plugin/src/main/java/info/persistent/dex/DexMethodCounts.java:83-94 | every node's parent exists and counts at least as much as the node |
| NamespaceCounts.ThroughOne | jdroid-gradle-plugin/src/main/java/info/persistent/dex/DexMethodCounts.java:83-92 | a walk enters at most one child of a node, and it enters one of the named children exactly when it goes below the node through that name |
| NamespaceCounts.ChildHitsBounded | jdroid-gradle-plugin/src/main/java/info/persistent/dex/DexMethodCounts.java:83-94 | the walks that pass through the distinct named children of a node number at most the walks that pass through the node |
| NamespaceCounts.FoldChildrenBounded | jdroid-gradle-plugin/src/main/java/info/persistent/dex/DexMethodCounts.java:83-94 | the counts of any distinct children of a node add up to at most the node's count |
| NamespaceCounts.FoldDepth | jdroid-gradle-plugin/src/main/java/info/persistent/dex/DexMethodCounts.java:83 | when every walk has at most `depth` names, no node is deeper than `depth` |
| NamespaceCounts.HitsAppend | jdroid-gradle-plugin/src/main/java/info/persistent/dex/DexMethodCounts.java:72-95 | the walks of two runs of references add up node by node |
| NamespaceCounts.FoldPermutation | jdroid-gradle-plugin/src/main/java/info/persistent/dex/DexMethodCounts.java:72-95 | the tree built from the walks does not depend on their order |
| NamespaceCounts.WalkStep | jdroid-gradle-plugin/src/main/java/info/persistent/dex/DexMethodCounts.java:84-94 | counting a walk one step further down equals adding the step to the walk already counted, with the new node kept at its old count |
| NamespaceCounts.StepDownWalk | jdroid-gradle-plugin/src/main/java/info/persistent/dex/DexMethodCounts.java:84-92 | one pass of the walk loop (count the current node, step into the child, creating it at zero) turns the counts reached at a path into the counts reached one name further down |
| NamespaceCounts.WalkEnds | jdroid-gradle-plugin/src/main/java/info/persistent/dex/DexMethodCounts.java:82-94 | the walk starts at the root with nothing changed, and the increment after the loop completes the walk |
| Render.RenderListStep | jdroid-gradle-plugin/src/main/java/info/persistent/dex/DexMethodCounts.java:51-55 | one pass of the output loop appends the child's line and then its subtree to the lines of the children before it |
| Render.SpacesGrow | jdroid-gradle-plugin/src/main/java/info/persistent/dex/DexMethodCounts.java:50 | each level adds four spaces to the indent |
| Render.RenderChildrenIsLines | jdroid-gradle-plugin/src/main/java/info/persistent/dex/DexMethodCounts.java:46-56 | printing below a node is one line per node under it, each its name and count indented four spaces per level |
| Render.SubtreeAscending | jdroid-gradle-plugin/src/main/java/info/persistent/dex/DexMethodCounts.java:51-54 | the nodes are printed in pre-order, the children of a node in ascending name order |
| Render.SubtreeComplete | jdroid-gradle-plugin/src/main/java/info/persistent/dex/DexMethodCounts.java:46-56 | exactly the nodes under a node are printed below it |
| Render.SubtreeCount | jdroid-gradle-plugin/src/main/java/info/persistent/dex/DexMethodCounts.java:46-56 | every node other than the root is printed exactly once |
| Render.ReportShape | jdroid-gradle-plugin/src/main/java/info/persistent/dex/DexMethodCounts.java:46-56 | the report is the root line, then the other nodes each once, in pre-order with ascending names, so it has exactly one line per node |
| PackageTree.Node.constructor | jdroid-gradle-plugin/src/main/java/info/persistent/dex/DexMethodCounts.java:42-44 | a new node has count 0 and no children |
| PackageTree.PackageTree.constructor | jdroid-gradle-plugin/src/main/java/info/persistent/dex/DexMethodCounts.java:70 | the tree starts as a root alone, with count 0 |
| PackageTree.PackageTree.ChildrenAreKids | jdroid-gradle-plugin/src/main/java/info/persistent/dex/DexMethodCounts.java:44 | a node's children map holds exactly the names one level below its path |
| PackageTree.PackageTree.Add | jdroid-gradle-plugin/src/main/java/info/persistent/dex/DexMethodCounts.java:81-94 | walking one name adds one to every node from the root down the walk, creating the missing ones, and keeps the tree well formed |
| PackageTree.PackageTree.WalkDown | jdroid-gradle-plugin/src/main/java/info/persistent/dex/DexMethodCounts.java:82-93 | the inner loop ends at the node of the walk, every node above it has gained one, and that node has kept its old count (0 when new) |
| PackageTree.PackageTree.Descend | jdroid-gradle-plugin/src/main/java/info/persistent/dex/DexMethodCounts.java:84-92 | one pass of the inner loop counts the current node and moves to its child of that name, which is created at zero when missing |
| PackageTree.PackageTree.Increment | jdroid-gradle-plugin/src/main/java/info/persistent/dex/DexMethodCounts.java:84 | `count++` changes that node's count and nothing else |
| PackageTree.PackageTree.NewChild | jdroid-gradle-plugin/src/main/java/info/persistent/dex/DexMethodCounts.java:89-91 | a new node with count 0 is put under a name the parent lacked, and nothing else changes |
| PackageTree.PackageTree.Output | jdroid-gradle-plugin/src/main/java/info/persistent/dex/DexMethodCounts.java:46-56 | output prints the root line only at the top level, then the children below the node as the report describes |
| PackageTree.PackageTree.OutputChildren | jdroid-gradle-plugin/src/main/java/info/persistent/dex/DexMethodCounts.java:50-55 | the loop prints the children in the given order, each followed by its own subtree |
| PackageTree.PackageTree.OutputChild | jdroid-gradle-plugin/src/main/java/info/persistent/dex/DexMethodCounts.java:52-54 | one pass prints the child's name and count, then the child's subtree one level deeper |
| Text.AscendingKeys | jdroid-gradle-plugin/src/main/java/info/persistent/dex/DexMethodCounts.java:51 | navigableKeySet yields the names of the children in ascending order |
| Text.SortedKeysAscending | jdroid-gradle-plugin/src/main/java/info/persistent/dex/DexMethodCounts.java:51 | the key order is strictly ascending and lists each key once |
| Text.AscendingUnique | jdroid-gradle-plugin/src/main/java/info/persistent/dex/DexMethodCounts.java:51 | two strictly ascending lists of the same names are equal, so the key order is determined by the keys |
| Text.PrecedesTransitive | jdroid-gradle-plugin/src/main/java/info/persistent/dex/DexMethodCounts.java:44 | the name order of the TreeMap is transitive |
| Text.PrecedesTotal | jdroid-gradle-plugin/src/main/java/info/persistent/dex/DexMethodCounts.java:44 | any two different names are ordered one way or the other |
| Text.DecimalRoundTrip | jdroid-gradle-plugin/src/main/java/info/persistent/dex/DexMethodCounts.java:53 | a printed count reads back as the count |
| Text.DecimalInjective | jdroid-gradle-plugin/src/main/java/info/persistent/dex/DexMethodCounts.java:53 | different counts print differently |
| DexMethodCounts.GenerateReportShape | jdroid-gradle-plugin/src/main/java/info/persistent/dex/DexMethodCounts.java:69-97 | the tree generate prints starts with the root line carrying the number of admitted references, then lists every other node exactly once, in pre-order with ascending names, one line per node |
| DexMethodCounts.Generate | jdroid-gradle-plugin/src/main/java/info/persistent/dex/DexMethodCounts.java:59-101 | generate writes the progress lines of getMethodRefs followed by the report of the tree that counts the admitted references' walks |
| DexMethodCounts.Walks | jdroid-gradle-plugin/src/main/java/info/persistent/dex/DexMethodCounts.java:72-83 | there is at most one walk per reference, exactly one when there is no package filter, and none longer than maxDepth |
| DexMethodCounts.AdmittedRefs | jdroid-gradle-plugin/src/main/java/info/persistent/dex/DexMethodCounts.java:77-80 | the references counted are exactly those whose name starts with the package filter, or all of them without a filter |
| DexMethodCounts.AdmittedRefsMultiplicity | jdroid-gradle-plugin/src/main/java/info/persistent/dex/DexMethodCounts.java:77-80 | an admitted reference is counted as often as it occurs among the references, and one the filter rejects not at all |
| DexMethodCounts.AdmittedRefsAppend | jdroid-gradle-plugin/src/main/java/info/persistent/dex/DexMethodCounts.java:72-80 | the admitted references of two runs are those of the first run followed by those of the second, so the filter keeps the order |
| DexMethodCounts.FoldStep | jdroid-gradle-plugin/src/main/java/info/persistent/dex/DexMethodCounts.java:72-95 | one pass of the reference loop leaves the tree as it was when the name is filtered out, and otherwise adds the reference's walk |
| DexMethodCounts.RootCount | jdroid-gradle-plugin/src/main/java/info/persistent/dex/DexMethodCounts.java:72-95 | the root counts every admitted reference |
| DexMethodCounts.RejectedChangesNothing | jdroid-gradle-plugin/src/main/java/info/persistent/dex/DexMethodCounts.java:77-80 | a reference whose name fails the package filter leaves the tree unchanged |
| DexMethodCounts.AdmittedAddsOne | jdroid-gradle-plugin/src/main/java/info/persistent/dex/DexMethodCounts.java:81-94 | an admitted reference adds exactly the nodes of its walk and adds one exactly to the nodes on its walk |
| DexMethodCounts.TreeDepth | jdroid-gradle-plugin/src/main/java/info/persistent/dex/DexMethodCounts.java:83 | no node of the tree is deeper than maxDepth |
| DexMethodCounts.ChildrenBounded | jdroid-gradle-plugin/src/main/java/info/persistent/dex/DexMethodCounts.java:83-94 | in the tree generate builds, any distinct children of a node count no more together than the node, and each parent counts at least as much as each child |
| DexMethodCounts.WalksAppend | jdroid-gradle-plugin/src/main/java/info/persistent/dex/DexMethodCounts.java:72-95 | the walks of two runs of references are the walks of each run, in order |
| DexMethodCounts.WalksPermutation | jdroid-gradle-plugin/src/main/java/info/persistent/dex/DexMethodCounts.java:72-95 | reordering the references reorders their walks |
| DexMethodCounts.ReportOrderIndependent | jdroid-gradle-plugin/src/main/java/info/persistent/dex/DexMethodCounts.java:72-97 | the tree and the report do not depend on the order of the references |
| DexMethodCounts.SplitExample | jdroid-gradle-plugin/src/main/java/info/persistent/dex/DexMethodCounts.java:81 | "com.foo.Bar" splits into "com", "foo" and "Bar" |
| DexMethodCounts.FoldOneWalk | jdroid-gradle-plugin/src/main/java/info/persistent/dex/DexMethodCounts.java:81-94 | one walk of one name gives a root and one child, each counting 1 |
| DexMethodCounts.ReportOneChild | jdroid-gradle-plugin/src/main/java/info/persistent/dex/DexMethodCounts.java:46-56 | a root and a child "com", each counting 1, print as "<root>: 1" and "    com: 1" |
| DexMethodCounts.ExampleDepthOne | jdroid-gradle-plugin/src/main/java/info/persistent/dex/DexMethodCounts.java:72-97 | one reference in com.foo.Bar with maxDepth 1 prints "<root>: 1" and "    com: 1" |
| HttpResponseValidator.GetErrorCode | jdroid-android/src/main/java/com/jdroid/android/api/AbstractHttpResponseValidator.java:73-92 | a missing header, and only it, throws the server error with the missing-header message; "200", and only it, gives no code; a code comes back exactly when one of the lookups knows the value, the concrete validator's winning; an unknown value throws the default code with the unknown-code message |
| HttpResponseValidator.ValidateResponse | jdroid-android/src/main/java/com/jdroid/android/api/AbstractHttpResponseValidator.java:45-71 | a server error is always rejected, with a connection failure exactly when its status is 504; a connection failure carries the logged status message |
| HttpResponseValidator.AcceptedWhen | jdroid-android/src/main/java/com/jdroid/android/api/AbstractHttpResponseValidator.java:45-71 | a response passes exactly when it is a success whose header is "200", a client error whose header is "200" or names a code other than the three it rejects, or a response of no class |
| HttpResponseValidator.MissingHeaderFails | jdroid-android/src/main/java/com/jdroid/android/api/AbstractHttpResponseValidator.java:73-92 | a success or client error without the header fails as a server error, whatever default its class passes |
| HttpResponseValidator.UnknownCodeFails | jdroid-android/src/main/java/com/jdroid/android/api/AbstractHttpResponseValidator.java:79-85 | a header value neither lookup knows fails with the class's default code: server error for a success, internal error for a client error |
| HttpResponseValidator.SuccessWithCodeFails | jdroid-android/src/main/java/com/jdroid/android/api/AbstractHttpResponseValidator.java:48-52 | a success whose header names a code throws that code's business exception |
| HttpResponseValidator.ClientErrorCodes | jdroid-android/src/main/java/com/jdroid/android/api/AbstractHttpResponseValidator.java:54-62 | a client error with a known code throws for the API-version, user-token and credentials codes only, and passes for any other |
| HttpResponseValidator.ServerErrorIgnoresHeader | jdroid-android/src/main/java/com/jdroid/android/api/AbstractHttpResponseValidator.java:63-69 | a server error is judged by its status and message alone, never by the header or the lookups |
| HttpResponseValidator.UnclassifiedAccepted | jdroid-android/src/main/java/com/jdroid/android/api/AbstractHttpResponseValidator.java:45-71 | a response of none of the three classes passes |

## Left out

- The PrintWriter, the output file, the `FileNotFoundException` path and `close` are not modelled. What `generate` and `getMethodRefs` print is returned as a sequence of lines.
- The static `printWriter` shared by all calls is not modelled. Each `Generate` call returns its own lines.
- Decoding the dex file is not modelled. `DexData` is the decoded method references and external class references.
- `Output.descriptorToDot` and `Output.packageNameOnly` are not part of this model. They are given as the function values of `DexNames.Naming`.
- DexNames.PackageName: states what `replace('$', '.')` does to the dotted name character by character, but not what `descriptorToDot` itself computes, since that code is not part of this model.
- `MethodRef.equals` and `hashCode` are not part of this model. Two references are taken to be the same exactly when they are equal as values.
- Counts are unbounded naturals. The overflow of Java's 32-bit `int` past 2^31 - 1 references is not modelled.
- Text.Precedes: compares `char` values one by one. Java's `compareTo` compares UTF-16 code units, so the order differs for characters outside the Basic Multilingual Plane.
- A null filter is not modelled; only the three `Filter` values are. With a null filter the Java code keeps no reference and logs the result as "referenced".
- `maxDepth` is any `int`. A negative depth counts every reference at the root only, as the Java loop does.
- The counting follows the code: one pass per reference adds exactly one to every node from the root down to the end of its walk, the last node included.
- The HttpResponseWrapper accessors (`isSuccess`, `isClientError`, `isServerError`, `getStatusCode`, `getHeader`, `logStatusCode`) are not part of this model. Their answers are the fields of `HttpResponseValidator.Response`.
- The abstract `findByStatusCode` and `CommonErrorCode.findByStatusCode` are not part of this model. They are given as the two functions of `HttpResponseValidator.Lookups`. A null result is `None`.
- `CommonErrorCode`'s other members are not part of this model. So are the exception classes (business, application, connection, API-version and user-token exceptions). Each exception is a `Failure` value, and `ErrorCode.equals` is value equality.
- LOGGER's debug and warning messages are not modelled. They have no effect on the result.
- `beforeExecute` does nothing. `afterExecute` only calls `validateResponse`. Neither is modelled separately.
- The rest of the repository is not part of this model.
