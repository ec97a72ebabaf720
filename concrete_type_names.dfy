/**
 * Binary-style names of runtime classes: the canonical name of the outermost enclosing class,
 * then the inner-class separator and the simple name of each nested class, outer to inner,
 * then a suffix.
 */
module ConcreteTypeNames {
  import opened Wrappers
  import opened Constants

  /** A class as far as naming goes: its canonical name and its simple name. */
  datatype ClassInfo = ClassInfo(canonicalName: string, simpleName: string)

  /** The classes in the opposite order; the last one comes first. */
  function Reverse(classes: seq<ClassInfo>): (r: seq<ClassInfo>)
    ensures |r| == |classes|
    ensures forall i :: 0 <= i < |classes| ==> r[i] == classes[|classes| - 1 - i]
  {
    if classes == [] then [] else [classes[|classes| - 1]] + Reverse(classes[..|classes| - 1])
  }

  /** The separator and the simple name of each class, in the order given. */
  function Nested(classes: seq<ClassInfo>): string
  {
    if classes == [] then "" else [InnerClassSeparator] + classes[0].simpleName + Nested(classes[1..])
  }

  /**
   * The name of the class at the head of `chain`, which lists the class and its enclosing
   * classes innermost first; none for an empty chain, where popping the empty stack throws.
   */
  function ClassName(chain: seq<ClassInfo>, suffix: string): (r: Option<string>)
    ensures r.None? <==> chain == []
    ensures r.Some? ==> |suffix| <= |r.value| && r.value[|r.value| - |suffix|..] == suffix
  {
    if chain == [] then None
    else
      var outer := Reverse(chain);
      Some(outer[0].canonicalName + Nested(outer[1..]) + suffix)
  }

  /**
   * constructClassName: pushes the class and each enclosing class onto a stack, so the
   * outermost ends on top, then pops the outermost's canonical name and each nested simple
   * name after a separator, and appends the suffix.
   */
  method ConstructClassName(chain: seq<ClassInfo>, suffix: string) returns (r: Option<string>)
    ensures r == ClassName(chain, suffix)
  {
    var classTree: seq<ClassInfo> := [];
    var rest := chain;
    ghost var pushed := 0;
    while rest != []
      invariant 0 <= pushed <= |chain| && rest == chain[pushed..]
      invariant classTree == Reverse(chain[..pushed])
      decreases |rest|
    {
      assert chain[..pushed + 1][..pushed] == chain[..pushed];
      classTree := [rest[0]] + classTree;
      rest := rest[1..];
      pushed := pushed + 1;
    }
    assert chain[..pushed] == chain;
    if classTree == [] {
      return None;
    }
    ghost var outer := classTree;
    var result := classTree[0].canonicalName;
    classTree := classTree[1..];
    while classTree != []
      invariant result + Nested(classTree) == outer[0].canonicalName + Nested(outer[1..])
      decreases |classTree|
    {
      assert result + Nested(classTree) ==
             result + [InnerClassSeparator] + classTree[0].simpleName + Nested(classTree[1..]);
      result := result + [InnerClassSeparator] + classTree[0].simpleName;
      classTree := classTree[1..];
    }
    assert result + Nested(classTree) == result;
    r := Some(result + suffix);
  }

  /** The name starts with the canonical name of the outermost class, the last on the chain. */
  lemma ClassNameStartsWithOutermost(chain: seq<ClassInfo>, suffix: string)
    requires chain != []
    ensures chain[|chain| - 1].canonicalName <= ClassName(chain, suffix).value
  {
    assert Reverse(chain)[0] == chain[|chain| - 1];
  }

  /** A top-level class is named by its canonical name followed by the suffix. */
  lemma TopLevelClassName(c: ClassInfo, suffix: string)
    ensures ClassName([c], suffix) == Some(c.canonicalName + suffix)
  {
    assert Reverse([c]) == [c];
    assert Nested(Reverse([c])[1..]) == "";
    assert c.canonicalName + "" == c.canonicalName;
  }

  lemma {:induction false} NestedAppend(classes: seq<ClassInfo>, c: ClassInfo)
    ensures Nested(classes + [c]) == Nested(classes) + [InnerClassSeparator] + c.simpleName
    decreases |classes|
  {
    if classes != [] {
      assert (classes + [c])[1..] == classes[1..] + [c];
      NestedAppend(classes[1..], c);
    }
  }

  /**
   * A nested class is named by its enclosing class's name, the separator and its own simple
   * name, then the suffix: each nesting level adds one separator and one simple name.
   */
  lemma NestedClassName(chain: seq<ClassInfo>, suffix: string)
    requires |chain| >= 2
    ensures ClassName(chain, suffix) ==
            Some(ClassName(chain[1..], "").value + [InnerClassSeparator] + chain[0].simpleName + suffix)
  {
    var outer, enclosing := Reverse(chain), Reverse(chain[1..]);
    assert outer == enclosing + [chain[0]];
    assert outer[1..] == enclosing[1..] + [chain[0]];
    NestedAppend(enclosing[1..], chain[0]);
    var head := enclosing[0].canonicalName + Nested(enclosing[1..]);
    assert ClassName(chain[1..], "").value == head + "" == head;
    assert outer[0] == enclosing[0];
    assert ClassName(chain, suffix).value
        == enclosing[0].canonicalName + (Nested(enclosing[1..]) + [InnerClassSeparator] + chain[0].simpleName) + suffix
        == head + [InnerClassSeparator] + chain[0].simpleName + suffix;
  }

  /** The number of occurrences of `c` in `s`. */
  function Count(c: char, s: string): nat
  {
    if s == [] then 0 else (if s[0] == c then 1 else 0) + Count(c, s[1..])
  }

  lemma {:induction false} CountAppend(c: char, a: string, b: string)
    ensures Count(c, a + b) == Count(c, a) + Count(c, b)
    decreases |a|
  {
    if a != [] {
      assert (a + b)[1..] == a[1..] + b;
      CountAppend(c, a[1..], b);
    } else {
      assert a + b == b;
    }
  }

  lemma {:induction false} CountAbsent(c: char, s: string)
    requires forall i :: 0 <= i < |s| ==> s[i] != c
    ensures Count(c, s) == 0
    decreases |s|
  {
    if s != [] {
      CountAbsent(c, s[1..]);
    }
  }

  /** No name on the chain and not the suffix holds the separator. */
  predicate SeparatorFree(chain: seq<ClassInfo>, suffix: string)
  {
    && (forall i :: 0 <= i < |suffix| ==> suffix[i] != InnerClassSeparator)
    && (forall k :: 0 <= k < |chain| ==>
          && (forall i :: 0 <= i < |chain[k].canonicalName| ==> chain[k].canonicalName[i] != InnerClassSeparator)
          && (forall i :: 0 <= i < |chain[k].simpleName| ==> chain[k].simpleName[i] != InnerClassSeparator))
  }

  /** When no name holds the separator, the name holds exactly one separator per nesting level. */
  lemma {:induction false} SeparatorsCountNesting(chain: seq<ClassInfo>, suffix: string)
    requires chain != [] && SeparatorFree(chain, suffix)
    ensures Count(InnerClassSeparator, ClassName(chain, suffix).value) == |chain| - 1
    decreases |chain|
  {
    CountAbsent(InnerClassSeparator, suffix);
    if |chain| == 1 {
      TopLevelClassName(chain[0], suffix);
      CountAbsent(InnerClassSeparator, chain[0].canonicalName);
      CountAppend(InnerClassSeparator, chain[0].canonicalName, suffix);
    } else {
      assert SeparatorFree(chain[1..], "") by {
        forall k | 0 <= k < |chain[1..]| ensures chain[1..][k] == chain[k + 1] { }
      }
      SeparatorsCountNesting(chain[1..], "");
      NestedClassName(chain, suffix);
      var enclosing := ClassName(chain[1..], "").value;
      CountAbsent(InnerClassSeparator, chain[0].simpleName);
      CountAppend(InnerClassSeparator, enclosing, [InnerClassSeparator]);
      CountAppend(InnerClassSeparator, enclosing + [InnerClassSeparator], chain[0].simpleName);
      CountAppend(InnerClassSeparator, enclosing + [InnerClassSeparator] + chain[0].simpleName, suffix);
    }
  }
}
