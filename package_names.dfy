/**
 * Package names as segment sequences, and the abstract meaning of a package-tree query:
 * the longest registered package whose segments are a prefix of the queried hierarchy.
 */
module PackageNames {
  import opened Wrappers

  /** A package split into its segments: "com.workday.model" is ["com", "workday", "model"]. */
  type Hierarchy = seq<string>

  /** The segments joined with '.', as a canonical package name is written. */
  function Join(segments: Hierarchy): string
    decreases |segments|
  {
    if |segments| == 0 then ""
    else if |segments| == 1 then segments[0]
    else segments[0] + "." + Join(segments[1..])
  }

  /** The canonical name of the node at a path: the root (empty path) has none. */
  function DottedName(path: Hierarchy): (r: Option<string>)
    ensures r.None? <==> path == []
  {
    if path == [] then None else Some(Join(path))
  }

  /**
   * Node.getCanonicalName: the parent's name, a '.', and the node's own segment; a node
   * whose parent has no name gets just its segment; a node without a segment gets none.
   */
  function CanonicalName(packagePoint: Option<string>, parentPackage: Option<string>): (r: Option<string>)
    ensures r.None? <==> packagePoint.None?
    ensures r.Some? ==> |packagePoint.value| <= |r.value| && r.value[|r.value| - |packagePoint.value|..] == packagePoint.value
    ensures r.Some? && parentPackage.None? ==> r.value == packagePoint.value
    ensures r.Some? && parentPackage.Some? ==>
              |r.value| == |parentPackage.value| + 1 + |packagePoint.value| &&
              r.value[..|parentPackage.value| + 1] == parentPackage.value + "."
  {
    if parentPackage.Some? && packagePoint.Some? then Some(parentPackage.value + "." + packagePoint.value)
    else if packagePoint.Some? then Some(packagePoint.value)
    else None
  }

  /** Appending a segment to a non-empty path appends '.' and the segment to its dotted join. */
  lemma {:induction false} JoinAppend(path: Hierarchy, segment: string)
    requires path != []
    ensures Join(path + [segment]) == Join(path) + "." + segment
    decreases |path|
  {
    if |path| > 1 {
      assert (path + [segment])[1..] == path[1..] + [segment];
      JoinAppend(path[1..], segment);
    }
  }

  /**
   * The name a child computes from its parent's name is the dotted join of the child's path;
   * a child of the root gets just its own segment.
   */
  lemma CanonicalNameOfChild(parentPath: Hierarchy, segment: string)
    ensures CanonicalName(Some(segment), DottedName(parentPath)) == DottedName(parentPath + [segment])
    ensures parentPath == [] ==> CanonicalName(Some(segment), DottedName(parentPath)) == Some(segment)
  {
    if parentPath == [] {
      assert parentPath + [segment] == [segment];
    } else {
      JoinAppend(parentPath, segment);
    }
  }

  /** `p` lies at or below `top` in the tree: `top` is a prefix of `p`, stated by length and slice. */
  predicate Under(top: Hierarchy, p: Hierarchy)
  {
    |top| <= |p| && p[..|top|] == top
  }

  lemma UnderIsPrefix(top: Hierarchy, p: Hierarchy)
    ensures Under(top, p) <==> top <= p
  {
    if top <= p {
      assert p[..|top|] == top;
    }
  }

  /**
   * The deepest registered package that is a prefix of the queried hierarchy `q`, found by
   * dropping trailing segments of `q` until a registered one remains.
   */
  function Deepest(registered: set<Hierarchy>, q: Hierarchy): Option<Hierarchy>
    decreases |q|
  {
    if q in registered then Some(q)
    else if q == [] then None
    else Deepest(registered, q[..|q| - 1])
  }

  /**
   * Deepest is the longest-prefix match: when it finds p, then p is registered, p is a prefix
   * of q and no registered prefix of q is longer; it finds nothing exactly when no registered
   * package is a prefix of q.
   */
  lemma {:induction false} DeepestIsLongestRegisteredPrefix(registered: set<Hierarchy>, q: Hierarchy)
    ensures Deepest(registered, q).Some? ==>
              && Deepest(registered, q).value in registered
              && Deepest(registered, q).value <= q
              && forall p :: p in registered && p <= q ==> |p| <= |Deepest(registered, q).value|
    ensures Deepest(registered, q).None? <==> forall p :: p in registered ==> !(p <= q)
    decreases |q|
  {
    if q in registered {
    } else if q == [] {
    } else {
      var shorter := q[..|q| - 1];
      DeepestIsLongestRegisteredPrefix(registered, shorter);
      forall p | p in registered && p <= q ensures p <= shorter {
        assert p != q;
        assert |p| < |q|;
        assert p == q[..|p|];
        assert p == shorter[..|p|];
      }
    }
  }

  /** A registered package queried with its own hierarchy is found itself. */
  lemma ExactHit(registered: set<Hierarchy>, p: Hierarchy)
    requires p in registered
    ensures Deepest(registered, p) == Some(p)
  {
  }

  /**
   * A more specific registered package wins: when both `general` and `specific` are
   * registered, `general` is a prefix of `specific` and `specific` a prefix of q, the match
   * is at least as deep as `specific` and so is never `general` unless the two are equal.
   */
  lemma SpecificBeatsGeneral(registered: set<Hierarchy>, general: Hierarchy, specific: Hierarchy, q: Hierarchy)
    requires general in registered && specific in registered
    requires general <= specific && specific <= q
    ensures Deepest(registered, q).Some?
    ensures |Deepest(registered, q).value| >= |specific|
    ensures general != specific ==> Deepest(registered, q) != Some(general)
  {
    DeepestIsLongestRegisteredPrefix(registered, q);
  }

  /** A query sharing no first segment with any registered package finds nothing. */
  lemma NoCommonFirstSegment(registered: set<Hierarchy>, q: Hierarchy)
    requires [] !in registered
    requires forall p :: p in registered ==> q == [] || p[0] != q[0]
    ensures Deepest(registered, q) == None
  {
    DeepestIsLongestRegisteredPrefix(registered, q);
    forall p | p in registered ensures !(p <= q) {
      assert p != [];
      assert q == [] || p[0] != q[0];
    }
  }

  /** With nothing registered, every query finds nothing. */
  lemma {:induction false} EmptyRegistryFindsNothing(q: Hierarchy)
    ensures Deepest({}, q) == None
    decreases |q|
  {
    if q != [] {
      EmptyRegistryFindsNothing(q[..|q| - 1]);
    }
  }

  /** An empty hierarchy (an element without a package) finds nothing when the root is not registered. */
  lemma EmptyHierarchyFindsNothing(registered: set<Hierarchy>)
    requires [] !in registered
    ensures Deepest(registered, []) == None
  {
  }

  /**
   * The query stops at the first segment with no child: when no registered package extends
   * q[..i] with the segment q[i], the segments of q from position i on play no part in the result.
   */
  lemma {:induction false} DeepestStopsAtMissingChild(registered: set<Hierarchy>, q: Hierarchy, i: nat)
    requires i < |q|
    requires forall p :: p in registered && q[..i] <= p ==> |p| == i || p[i] != q[i]
    ensures Deepest(registered, q) == Deepest(registered, q[..i])
    decreases |q|
  {
    assert q[..i] <= q;
    var shorter := q[..|q| - 1];
    if |shorter| == i {
      assert shorter == q[..i];
    } else {
      assert shorter[..i] == q[..i];
      assert shorter[i] == q[i];
      DeepestStopsAtMissingChild(registered, shorter, i);
    }
  }

  /**
   * The packages org, org.child1, org.child2 and com: each queried package finds itself or
   * its deepest registered ancestor, and a package-less query finds nothing.
   */
  lemma {:induction false} NormalTreeQueries()
    ensures var registered := {["org"], ["org", "child1"], ["org", "child2"], ["com"]};
      && Deepest(registered, []) == None
      && Deepest(registered, ["com"]) == Some(["com"])
      && Deepest(registered, ["org"]) == Some(["org"])
      && Deepest(registered, ["org", "child1"]) == Some(["org", "child1"])
      && Deepest(registered, ["org", "child1", "grandchild"]) == Some(["org", "child1"])
      && Deepest(registered, ["org", "child2"]) == Some(["org", "child2"])
      && Deepest(registered, ["org", "child1", "grandchild", "greatgrandchild"]) == Some(["org", "child1"])
  {
    var registered := {["org"], ["org", "child1"], ["org", "child2"], ["com"]};
    var q: Hierarchy := ["org", "child1", "grandchild", "greatgrandchild"];
    assert q[..3] == ["org", "child1", "grandchild"] && q[..3] !in registered;
    assert q[..3][..2] == ["org", "child1"];
    assert q !in registered;
  }

  /**
   * With a single registered package p, a query finds p exactly when p is a prefix of it: the
   * ancestors of p, whose nodes exist only to reach p, match nothing.
   */
  lemma SingleRegisteredPackage(p: Hierarchy, q: Hierarchy)
    ensures Deepest({p}, q) == if p <= q then Some(p) else None
  {
    DeepestIsLongestRegisteredPrefix({p}, q);
  }

  /**
   * The table of getMatchingPackage's documentation: with com.workday, com.workday.model and
   * com.workday.model.xml.base registered, the package com.workday.model.xml finds
   * com.workday.model, com.workday.util finds com.workday, and org.chart finds nothing.
   */
  lemma {:induction false} DocumentedMatches()
    ensures var registered := {["com", "workday"], ["com", "workday", "model"], ["com", "workday", "model", "xml", "base"]};
      && Deepest(registered, ["com", "workday", "model", "xml"]) == Some(["com", "workday", "model"])
      && Deepest(registered, ["com", "workday", "util"]) == Some(["com", "workday"])
      && Deepest(registered, ["org", "chart"]) == None
  {
    var registered := {["com", "workday"], ["com", "workday", "model"], ["com", "workday", "model", "xml", "base"]};
    var q: Hierarchy := ["com", "workday", "model", "xml"];
    assert q !in registered && q[..3] == ["com", "workday", "model"];
    var u: Hierarchy := ["com", "workday", "util"];
    assert u !in registered && u[..2] == ["com", "workday"];
    var o: Hierarchy := ["org", "chart"];
    assert o !in registered && o[..1] == ["org"] && o[..1] !in registered && o[..1][..0] == [];
  }
}
