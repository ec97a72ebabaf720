# metajava package tree and type names, modelled in Dafny

This project models three pieces of the metajava annotation-processing helpers:

- **PackageTree**: a trie keyed by package segments. It is built once from a set of
  packages. It then answers, for the package of any element, which registered package is
  the most specific one that contains it.
- **MetaTypeNames**: builds the name of a generated type from a type's package and qualified
  name. The package name and its '.' stay as they are, every later '.' becomes the
  inner-class separator '$', and a suffix is appended.
- **ConcreteTypeNames**: builds the same kind of name from a runtime class. It walks the
  chain of enclosing classes onto a stack, then pops the outermost class's canonical name
  and each nested class's simple name after a '$'.

Files and modules:

- `wrappers.dfy` (`Wrappers`): `Option`, which stands for Java's `null` results, and
  `Result`, which stands for calls that throw.
- `constants.dfy` (`Constants`): the inner-class separator `'$'`.
- `package_names.dfy` (`PackageNames`): packages as segment sequences (`Hierarchy`), their
  dotted names, and the abstract answer to a tree query.
  - `Deepest(registered, q)` drops trailing segments of `q` until a registered package
    remains.
  - The lemmas prove that `Deepest` is exactly the longest registered prefix.
- `package_tree.dfy` (`PackageTrees`): the classes `Node` and `PackageTree`, with their
  fields updated in place.
  - Each tree carries a ghost map `NodeAt` from every path to the node there, and a ghost
    set `Registered` of the inserted packages.
  - `Valid()` says that `NodeAt` is a trie over the nodes' `children` maps, that every node
    knows its path and has the dotted join of it as its name, and that a node is valid
    exactly when its path is registered.
  - Every operation keeps `Valid()`. Insertion states the new `NodeAt` and `Registered`
    outright. The query states its result as `Deepest(Registered, q)`.
- `meta_type_names.dfy` (`MetaTypeNames`): `getPackage` as a loop up an enclosing-element
  chain, and `constructTypeName` (both overloads) as a pure name function plus the methods
  that call the loop.
- `concrete_type_names.dfy` (`ConcreteTypeNames`): `constructClassName` as a method with
  the push loop and the pop loop, proved against the function `ClassName`.

Java's `null` inputs and exceptions are modelled as follows:

- A package element that is `null` has the empty hierarchy.
- The canonical name of the root node is `None`.
- `getPackage` running off the end of the chain (a `null` dereference) is `None`, and
  `NoEnclosingPackage` for the type-name methods.
- `substring` out of range is `SubstringOutOfRange`.
- Popping an empty class stack is `None`.

## Model

| member | source | states |
|---|---|---|
| PackageNames.CanonicalName | src/main/java/com/workday/meta/PackageTree.java:176-186 | A node has a name exactly when it has a segment, and the name ends with that segment. Without a parent name the name is just the segment. With one, the name is the parent name, a '.' and the segment. |
| PackageNames.CanonicalNameOfChild | src/main/java/com/workday/meta/PackageTree.java:176-186 | The name a node computes from its parent's name and its own segment is the dotted join of its path. A child of the root (whose name is null) gets just its own segment. |
| PackageNames.DeepestIsLongestRegisteredPrefix | src/main/java/com/workday/meta/PackageTree.java:92-114 | A query's answer is registered, is a prefix of the queried hierarchy, and is at least as long as every registered prefix of it. The answer is none exactly when no registered package is a prefix. |
| PackageNames.ExactHit | src/main/java/com/workday/meta/PackageTree.java:99-114 | A registered package queried with its own hierarchy finds itself. |
| PackageNames.SpecificBeatsGeneral | src/main/java/com/workday/meta/PackageTree.java:39-67 | If both a package and a more specific one below it are registered, a query under the specific one finds at least that depth, never the general one. |
| PackageNames.NoCommonFirstSegment | src/main/java/com/workday/meta/PackageTree.java:99-114 | A query sharing no first segment with any registered package finds nothing. |
| PackageNames.EmptyRegistryFindsNothing | src/main/java/com/workday/meta/PackageTree.java:32-37 | A tree built from no packages finds nothing for any query. |
| PackageNames.EmptyHierarchyFindsNothing | src/main/java/com/workday/meta/PackageTree.java:84-90 | An element without a package has the empty hierarchy, and the empty hierarchy finds nothing, because the root is never registered. |
| PackageNames.DeepestStopsAtMissingChild | src/main/java/com/workday/meta/PackageTree.java:102-106 | The walk stops at the first segment without a child. The segments after it play no part in the result. |
| PackageNames.SingleRegisteredPackage | src/main/java/com/workday/meta/PackageTree.java:143-156 | With one registered package, its ancestors, whose nodes only lead down to it, match nothing. Queries at or below it find it. |
| PackageNames.DocumentedMatches | src/main/java/com/workday/meta/PackageTree.java:43-62 | The documented table: three registered packages and three queries with their expected answers, including no match. |
| PackageNames.NormalTreeQueries | src/test/java/com/workday/meta/PackageTreeTest.java:77-154 | The expected answers for the packages org, org.child1, org.child2 and com. |
| PackageTrees.Node.constructor | src/main/java/com/workday/meta/PackageTree.java:166-174 | Both Java constructors: the segment and validity are as given, there are no children, and the name comes from the parent's name. |
| PackageTrees.PackageTree.constructor | src/main/java/com/workday/meta/PackageTree.java:29-37 | The tree is valid. Its registered packages are the non-empty packages of the set. A path has a node exactly when it is the root or a prefix of some package of the set. |
| PackageTrees.PackageTree.AddPackagesToTree | src/main/java/com/workday/meta/PackageTree.java:33-35 | Inserting every package of the set keeps the tree valid. It registers exactly the set's non-empty packages, and it adds exactly the prefixes of the set's packages to the shape. |
| PackageTrees.PackageTree.AddPackageToTree | src/main/java/com/workday/meta/PackageTree.java:73-76 | Inserting one package keeps the tree valid. Old nodes stay where they were, new nodes are fresh, the package is registered unless it is empty, and the package's prefixes are added to the shape. Inserting a package that is already registered changes neither the shape nor the registered set. |
| PackageTrees.TrieIsPrefixClosed | src/main/java/com/workday/meta/PackageTree.java:125-140 | Every prefix of a path that has a node has a node too, because insertion creates every intermediate node on the way down. |
| PackageTrees.PackageTree.GetMatchingPackage | src/main/java/com/workday/meta/PackageTree.java:68-71 | The result is the dotted name of the longest registered prefix of the queried package, or none when there is no such prefix. |
| PackageTrees.PackageTree.FindDeepestMatchingNode | src/main/java/com/workday/meta/PackageTree.java:99-114 | The result is null exactly when nothing matches. Otherwise it is a valid node whose path is the longest registered prefix and which is the tree's node at that path, even if the walk continued past it to unregistered nodes. |
| PackageTrees.PackageTree.AddPackageToNode | src/main/java/com/workday/meta/PackageTree.java:125-140 | Inserting the rest of a package below a node keeps the tree valid and keeps every old node. The new paths are exactly those between the node and the full package, and the full package is registered unless the rest is empty. |
| PackageTrees.PackageTree.PutChild | src/main/java/com/workday/meta/PackageTree.java:133-134 | Hanging a new chain of nodes under a free child key keeps the tree valid. It adds exactly the chain's paths and registers its leaf. |
| PackageTrees.PackageTree.MarkValid | src/main/java/com/workday/meta/PackageTree.java:135-136 | Marking an existing node valid keeps the tree valid, adds no node, and registers the node's path. |
| PackageTrees.PackageTree.CreateNodeForPackage | src/main/java/com/workday/meta/PackageTree.java:145-156 | Builds a fresh chain of nodes, one per segment of the hierarchy, hung below the parent's path. The chain is a trie whose node names are the dotted joins of their paths, and only the leaf is valid. |
| PackageTrees.PackageTree.PutOnlyChild | src/main/java/com/workday/meta/PackageTree.java:153 | Putting the created child chain under the new node makes a trie topped by that node, with the same paths and validity plus the node. |
| MetaTypeNames.ReplaceDots | src/main/java/com/workday/meta/MetaTypeNames.java:32 | Replacing '.' by '$' keeps the length. Each '.' becomes '$', and every other character is kept. |
| MetaTypeNames.TypeName | src/main/java/com/workday/meta/MetaTypeNames.java:31-39 | The result is as long as the qualified name plus the suffix and ends with the suffix. It starts with the package name and '.' when the package is named. After that prefix, each character of the qualified name is kept, except that '.' becomes '$'. |
| MetaTypeNames.UnnamedPackageTypeName | src/main/java/com/workday/meta/MetaTypeNames.java:31-32 | A type in the unnamed package gets its whole qualified name with separators, then the suffix. |
| MetaTypeNames.NamedPackageTypeName | src/main/java/com/workday/meta/MetaTypeNames.java:33-38 | For a qualified name that is package + "." + nested, the result is package + "." + the nested part with separators + the suffix. |
| MetaTypeNames.TypeNameOnlyReplacesNestedDots | src/main/java/com/workday/meta/MetaTypeNames.java:31-38 | A character changes exactly where a '.' follows the package part. A qualified name with no '.' after the package part comes back unchanged, followed by the suffix. |
| MetaTypeNames.TypeNameRoundTrip | src/main/java/com/workday/meta/MetaTypeNames.java:31-38 | Turning the separators after the package part back into '.' and dropping the suffix gives the qualified name again, provided that part held no '$'. |
| MetaTypeNames.FirstPackage | src/main/java/com/workday/meta/MetaTypeNames.java:42-47 | The element found is on the chain and is a package. |
| MetaTypeNames.FirstPackageIsInnermost | src/main/java/com/workday/meta/MetaTypeNames.java:42-47 | A package is found exactly when the chain holds one. It is the innermost one: no element before it is a package. |
| MetaTypeNames.GetPackage | src/main/java/com/workday/meta/MetaTypeNames.java:42-47 | The loop up the enclosing chain returns the innermost package element, or none where Java would dereference null. |
| MetaTypeNames.ConstructTypeNameWithSuffix | src/main/java/com/workday/meta/MetaTypeNames.java:27-40 | A missing package fails with NoEnclosingPackage, and only then. A package name too long for the substring fails with SubstringOutOfRange. Otherwise the result is the name built from the innermost package's name, the type's qualified name and the suffix. |
| MetaTypeNames.ConstructTypeName | src/main/java/com/workday/meta/MetaTypeNames.java:23-25 | The one-argument overload has the same outcomes as the two-argument form with the empty suffix. On success it gives the name built from the innermost package and the qualified name with nothing appended, so the name is as long as the qualified name. |
| ConcreteTypeNames.ClassName | src/main/java/com/workday/meta/ConcreteTypeNames.java:20-33 | A name exists exactly when the chain is non-empty, and it ends with the suffix. |
| ConcreteTypeNames.ConstructClassName | src/main/java/com/workday/meta/ConcreteTypeNames.java:20-33 | The push loop leaves the chain reversed on the stack. The pop loop then builds exactly `ClassName` of the chain and the suffix. |
| ConcreteTypeNames.ClassNameStartsWithOutermost | src/main/java/com/workday/meta/ConcreteTypeNames.java:21-27 | The name starts with the canonical name of the outermost class, the last one pushed. |
| ConcreteTypeNames.TopLevelClassName | src/main/java/com/workday/meta/ConcreteTypeNames.java:22-31 | A top-level class is named by its canonical name followed by the suffix. |
| ConcreteTypeNames.NestedClassName | src/main/java/com/workday/meta/ConcreteTypeNames.java:28-30 | A nested class's name is its enclosing class's name, then '$' and its simple name, then the suffix. So the nested classes appear outer to inner. |
| ConcreteTypeNames.SeparatorsCountNesting | src/main/java/com/workday/meta/ConcreteTypeNames.java:21-30 | When no name and not the suffix holds '$', the result holds exactly one '$' per nesting level, which is the chain length minus one. |

## Left out

- Splitting a package's qualified name on '.' in `getPackageHierarchy`, and the `Elements` resolver (`getPackageOf`, `getPackageElement`), are outside the model.
  - Queries and insertions take the hierarchy already split.
  - The answer is the matched package's dotted name, not the package element it resolves to.
  - Java's `"".split` gives one empty segment for the unnamed package; the model takes whatever segments it is given.
- Empty or '.'-containing segments are not rejected, because the Java code does not reject them either.
- The order in which the constructor's loop visits the set is left open: one package at a time is chosen from the remaining ones. The loop sits in its own method, `AddPackagesToTree`.
- The two Java `Node` constructors are one constructor taking `isValid`. `Node` carries a ghost `path`, which the Java class does not have.
- `PackageTrees.PackageTree.AddPackageToNode`: the path of the node it starts from (empty for the root) is given as a ghost parameter, because the Java node does not store its path.
- `ConcreteTypeNames.ConstructClassName`: classes are abstracted as (canonical name, simple name) pairs. Reflection (`getEnclosingClass`, `getCanonicalName`) and the null canonical name of anonymous and local classes are not modelled.
- `MetaTypeNames.ConstructTypeNameWithSuffix`: program elements are abstracted as (kind, qualified name) pairs on a finite enclosing chain, and the Java element API is not modelled. `StringBuilder` appends are modelled as string concatenation.
- MetaTypes, Initializers, AnnotationUtils, CodeAnalysisUtils, Modifiers and InvalidTypeException are not part of this model: they are lookup helpers over the compiler's type API.
- Concurrency is not modelled, because the tree is built once and then only read.
