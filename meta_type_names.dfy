/**
 * Names of generated types derived from a type seen by the annotation processor: the
 * package name, a '.', and the rest of the qualified name with every '.' turned into the
 * inner-class separator, then a suffix.
 */
module MetaTypeNames {
  import opened Wrappers
  import opened Constants

  /** The kinds of program element the enclosing chain of a type can pass through. */
  datatype ElementKind = Package | Class | Interface | Enum | AnnotationType | Executable

  /** A program element: its kind and its qualified name ("" for the unnamed package). */
  datatype Element = Element(kind: ElementKind, qualifiedName: string)

  /** What goes wrong building a type name: Java throws instead of returning a name. */
  datatype TypeNameError =
    | NoEnclosingPackage   // the chain ends before a package: getEnclosingElement yields null
    | SubstringOutOfRange  // the package name is not shorter than the qualified name

  /** String.replace('.', '$'): every '.' becomes the inner-class separator, nothing else moves. */
  function ReplaceDots(s: string): (r: string)
    ensures |r| == |s|
    ensures forall i :: 0 <= i < |s| ==> r[i] == if s[i] == '.' then InnerClassSeparator else s[i]
  {
    if s == [] then []
    else [if s[0] == '.' then InnerClassSeparator else s[0]] + ReplaceDots(s[1..])
  }

  /** qualifiedName.substring(packageName.length() + 1) does not throw. */
  predicate SubstringFits(packageName: string, qualifiedName: string)
  {
    packageName == [] || |packageName| < |qualifiedName|
  }

  /** The first position of the qualified name that the separator replacement touches. */
  function NestedStart(packageName: string): nat
  {
    if packageName == [] then 0 else |packageName| + 1
  }

  /**
   * The name built from a package name and a qualified name: the package name and '.' kept
   * (nothing when the package is unnamed), each '.' after them replaced, the suffix appended.
   */
  function TypeName(packageName: string, qualifiedName: string, suffix: string): (r: string)
    requires SubstringFits(packageName, qualifiedName)
    ensures |r| == |qualifiedName| + |suffix|
    ensures r[|qualifiedName|..] == suffix
    ensures packageName != [] ==> r[..|packageName| + 1] == packageName + "."
    ensures forall i :: NestedStart(packageName) <= i < |qualifiedName| ==>
              r[i] == if qualifiedName[i] == '.' then InnerClassSeparator else qualifiedName[i]
  {
    if packageName == [] then ReplaceDots(qualifiedName) + suffix
    else packageName + "." + ReplaceDots(qualifiedName[|packageName| + 1..]) + suffix
  }

  /**
   * A type in the unnamed package gets its whole qualified name with the separator in place
   * of every '.', then the suffix.
   */
  lemma UnnamedPackageTypeName(qualifiedName: string, suffix: string)
    ensures TypeName("", qualifiedName, suffix) == ReplaceDots(qualifiedName) + suffix
  {
  }

  /**
   * When the qualified name really is the package name, a '.', and a nested part, the
   * result is the package, a '.', the nested part with separators, and the suffix.
   */
  lemma NamedPackageTypeName(packageName: string, nested: string, suffix: string)
    requires packageName != []
    ensures SubstringFits(packageName, packageName + "." + nested)
    ensures TypeName(packageName, packageName + "." + nested, suffix) == packageName + "." + ReplaceDots(nested) + suffix
  {
    assert (packageName + "." + nested)[|packageName| + 1..] == nested;
  }

  /**
   * The result differs from the qualified name only where a '.' after the package part became a
   * separator: every other position keeps its character, so a qualified name with no
   * '.' after the package part is returned unchanged, followed by the suffix.
   */
  lemma TypeNameOnlyReplacesNestedDots(packageName: string, qualifiedName: string, suffix: string)
    requires SubstringFits(packageName, qualifiedName)
    requires packageName != [] ==> qualifiedName[..|packageName| + 1] == packageName + "."
    ensures forall i :: 0 <= i < |qualifiedName| ==>
              (TypeName(packageName, qualifiedName, suffix)[i] == qualifiedName[i] <==>
               qualifiedName[i] != '.' || i < NestedStart(packageName))
    ensures (forall i :: NestedStart(packageName) <= i < |qualifiedName| ==> qualifiedName[i] != '.') ==>
              TypeName(packageName, qualifiedName, suffix) == qualifiedName + suffix
  {
    var r := TypeName(packageName, qualifiedName, suffix);
    forall i | 0 <= i < NestedStart(packageName)
      ensures r[i] == qualifiedName[i]
    {
      assert r[i] == r[..|packageName| + 1][i];
      assert qualifiedName[i] == qualifiedName[..|packageName| + 1][i];
    }
    if forall i :: NestedStart(packageName) <= i < |qualifiedName| ==> qualifiedName[i] != '.' {
      assert r[..|qualifiedName|] == qualifiedName;
      assert r == r[..|qualifiedName|] + r[|qualifiedName|..];
    }
  }

  /** Turns each separator at or after position `from` back into a '.'. */
  function RestoreDots(s: string, from: nat): string
  {
    seq(|s|, i requires 0 <= i < |s| => if i >= from && s[i] == InnerClassSeparator then '.' else s[i])
  }

  /**
   * The replacement can be undone: turning the separators after the package part back into
   * '.' and dropping the suffix gives the qualified name again, when that part held no separator.
   */
  lemma TypeNameRoundTrip(packageName: string, qualifiedName: string, suffix: string)
    requires SubstringFits(packageName, qualifiedName)
    requires forall i :: NestedStart(packageName) <= i < |qualifiedName| ==> qualifiedName[i] != InnerClassSeparator
    requires packageName != [] ==> qualifiedName[..|packageName| + 1] == packageName + "."
    ensures RestoreDots(TypeName(packageName, qualifiedName, suffix)[..|qualifiedName|], NestedStart(packageName)) == qualifiedName
  {
    var r := TypeName(packageName, qualifiedName, suffix);
    TypeNameOnlyReplacesNestedDots(packageName, qualifiedName, suffix);
    assert |r[..|qualifiedName|]| == |qualifiedName|;
  }

  /** getPackage's answer: the first element of kind Package on the chain, innermost first. */
  function FirstPackage(chain: seq<Element>): (r: Option<Element>)
    ensures r.Some? ==> r.value in chain && r.value.kind == Package
  {
    if chain == [] then None
    else if chain[0].kind == Package then Some(chain[0])
    else FirstPackage(chain[1..])
  }

  /**
   * FirstPackage finds a package exactly when the chain holds one, and it is the innermost:
   * every element before it is not a package.
   */
  lemma {:induction false} FirstPackageIsInnermost(chain: seq<Element>)
    ensures FirstPackage(chain).None? <==> forall i :: 0 <= i < |chain| ==> chain[i].kind != Package
    ensures FirstPackage(chain).Some? ==>
              exists i :: 0 <= i < |chain| && chain[i] == FirstPackage(chain).value &&
                forall j :: 0 <= j < i ==> chain[j].kind != Package
  {
    if chain != [] && chain[0].kind != Package {
      FirstPackageIsInnermost(chain[1..]);
      if FirstPackage(chain).Some? {
        var i :| 0 <= i < |chain[1..]| && chain[1..][i] == FirstPackage(chain).value &&
                 forall j :: 0 <= j < i ==> chain[1..][j].kind != Package;
        assert chain[i + 1] == FirstPackage(chain).value;
        forall j | 0 <= j < i + 1 ensures chain[j].kind != Package {
          if j > 0 { assert chain[j] == chain[1..][j - 1]; }
        }
      }
      forall i | 0 <= i < |chain| && FirstPackage(chain).None? ensures chain[i].kind != Package {
        if i > 0 { assert chain[i] == chain[1..][i - 1]; }
      }
    } else if chain != [] {
      assert chain[0] == FirstPackage(chain).value;
    }
  }

  /**
   * getPackage: steps from the type to its enclosing element until it reaches a package;
   * none when the chain ends first, where Java dereferences null.
   */
  method GetPackage(chain: seq<Element>) returns (r: Option<Element>)
    ensures r == FirstPackage(chain)
  {
    var rest := chain;
    while rest != [] && rest[0].kind != Package
      invariant FirstPackage(rest) == FirstPackage(chain)
      decreases |rest|
    {
      rest := rest[1..];
    }
    if rest == [] {
      r := None;
    } else {
      r := Some(rest[0]);
    }
  }

  /**
   * constructTypeName(baseType, suffix): the name built from the package the type lies in and
   * the type's qualified name; an error where the Java code throws.
   */
  method ConstructTypeNameWithSuffix(baseType: Element, enclosing: seq<Element>, suffix: string)
    returns (r: Result<string, TypeNameError>)
    ensures FirstPackage([baseType] + enclosing).None? <==> r == Failure(NoEnclosingPackage)
    ensures FirstPackage([baseType] + enclosing).Some? ==>
              var packageName := FirstPackage([baseType] + enclosing).value.qualifiedName;
              if SubstringFits(packageName, baseType.qualifiedName)
              then r == Success(TypeName(packageName, baseType.qualifiedName, suffix))
              else r == Failure(SubstringOutOfRange)
  {
    var package := GetPackage([baseType] + enclosing);
    if package.None? {
      return Failure(NoEnclosingPackage);
    }
    var packageName := package.value.qualifiedName;
    var qualifiedName := baseType.qualifiedName;
    if !SubstringFits(packageName, qualifiedName) {
      return Failure(SubstringOutOfRange);
    }
    r := Success(TypeName(packageName, qualifiedName, suffix));
  }

  /** constructTypeName(type): the two-argument form with the empty suffix. */
  method ConstructTypeName(baseType: Element, enclosing: seq<Element>) returns (r: Result<string, TypeNameError>)
    ensures FirstPackage([baseType] + enclosing).None? <==> r == Failure(NoEnclosingPackage)
    ensures FirstPackage([baseType] + enclosing).Some? ==>
              var packageName := FirstPackage([baseType] + enclosing).value.qualifiedName;
              if SubstringFits(packageName, baseType.qualifiedName)
              then r == Success(TypeName(packageName, baseType.qualifiedName, ""))
              else r == Failure(SubstringOutOfRange)
  {
    r := ConstructTypeNameWithSuffix(baseType, enclosing, "");
  }
}
