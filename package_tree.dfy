/**
 * PackageTree: a trie keyed by package segments, built once from a set of packages and then
 * queried for the most specific registered package that a hierarchy lies under.
 *
 * The nodes are objects whose `isValid` and `children` change in place. The tree's invariant
 * is stated over a ghost map from each path to the node at that path.
 */
module PackageTrees {
  import opened Wrappers
  import opened PackageNames

  /** One trie node: one segment position in the union of the registered packages. */
  class Node {
    /** The simple name of the package this node represents; none for the root. */
    const packagePoint: Option<string>
    /** The dotted name of this node's package, computed from the parent's; none for the root. */
    const canonicalName: Option<string>
    /** True when this node's package was registered; false for nodes created only to reach deeper ones. */
    var isValid: bool
    var children: map<string, Node>

    /** The segments from the root to this node. */
    ghost const path: Hierarchy

    /** Both Java constructors: the two-argument one passes `false` for `isValid`. */
    constructor (packagePoint: Option<string>, parentPackage: Option<string>, isValid: bool, ghost path: Hierarchy)
      ensures this.packagePoint == packagePoint && this.isValid == isValid && this.path == path
      ensures canonicalName == CanonicalName(packagePoint, parentPackage)
      ensures children == map[]
    {
      this.isValid := isValid;
      this.packagePoint := packagePoint;
      this.canonicalName := CanonicalName(packagePoint, parentPackage);
      this.path := path;
      children := map[];
    }

    /** HashMap.get on the children: the child stored under `name`, or null. */
    function Get(name: string): Node?
      reads this
    {
      if name in children then children[name] else null
    }
  }

  /**
   * `m` maps every path at or below `top` to the node there: each node knows its own path
   * and has the dotted join of it as its name; a child stored under key k of the node at p is
   * the node at p + [k]; and every node below `top` hangs under its parent by its own segment.
   */
  ghost predicate TrieShaped(m: map<Hierarchy, Node>, top: Hierarchy)
    reads m.Values
  {
    && top in m
    && (forall p {:trigger p in m} | p in m :: Under(top, p) && m[p].path == p && m[p].canonicalName == DottedName(p))
    && (forall p, k {:trigger k in m[p].children} | p in m && k in m[p].children ::
          p + [k] in m && m[p].children[k] == m[p + [k]])
    && (forall p, k {:trigger p + [k] in m} | p + [k] in m && Under(top, p) ::
          p in m && k in m[p].children && m[p + [k]].packagePoint == Some(k))
  }

  /** The node at a path below `top` is reached from the node at any shorter path on the way. */
  lemma {:induction false} AncestorHasChild(m: map<Hierarchy, Node>, top: Hierarchy, q: Hierarchy, i: nat)
    requires TrieShaped(m, top)
    requires Under(top, q) && |top| <= i < |q|
    ensures q in m ==>
              && q[..i] in m && q[i] in m[q[..i]].children && q[..i + 1] in m
              && m[q[..i]].children[q[i]] == m[q[..i + 1]]
    decreases |q|
  {
    if q in m {
      var parent, k := q[..|q| - 1], q[|q| - 1];
      assert q == parent + [k];
      assert Under(top, parent) by { assert parent[..|top|] == q[..|top|]; }
      if i < |q| - 1 {
        AncestorHasChild(m, top, parent, i);
        assert parent[..i] == q[..i] && parent[i] == q[i] && parent[..i + 1] == q[..i + 1];
      } else {
        assert q[..i] == parent && q[..i + 1] == q;
      }
    }
  }

  /** Adding the prefixes of a path whose prefixes are all present already adds nothing. */
  lemma ShapeUnchanged(before: set<Hierarchy>, after: set<Hierarchy>, element: Hierarchy)
    requires forall p :: p in after <==> p in before || p <= element
    requires forall s :: s <= element ==> s in before
    ensures after == before
  {
  }

  /** A trie is prefix-closed: every prefix of a path that has a node has a node too. */
  lemma TrieIsPrefixClosed(m: map<Hierarchy, Node>, q: Hierarchy)
    requires TrieShaped(m, []) && q in m
    ensures forall s :: s <= q ==> s in m
  {
    assert Under([], q) by { assert q[..0] == []; }
    forall s | s <= q
      ensures s in m
    {
      if |s| < |q| {
        AncestorHasChild(m, [], q, |s|);
        assert s == q[..|s|];
      } else {
        assert s == q;
      }
    }
  }

  /** No path below a missing child of the node at `prefix` has a node in a trie. */
  lemma NothingBelowMissingChild(m: map<Hierarchy, Node>, prefix: Hierarchy, k: string, below: set<Hierarchy>)
    requires TrieShaped(m, []) && prefix in m && k !in m[prefix].children
    requires forall p | p in below :: Under(prefix + [k], p)
    ensures forall p | p in below :: p !in m
  {
    forall p | p in below
      ensures p !in m
    {
      assert Under([], p) by { assert p[..0] == []; }
      assert p[..|prefix|] == p[..|prefix| + 1][..|prefix|];
      AncestorHasChild(m, [], p, |prefix|);
    }
  }

  /** A path between `lo` and a longer `hi` is `lo` itself or lies under `lo`'s next step towards `hi`. */
  lemma PathBetween(lo: Hierarchy, p: Hierarchy, hi: Hierarchy)
    requires Under(lo, p) && Under(p, hi) && |lo| < |hi|
    ensures p == lo || Under(lo + [hi[|lo|]], p)
  {
    if |p| > |lo| {
      assert p[|lo|] == hi[|lo|] by { assert hi[..|p|][|lo|] == hi[|lo|]; }
      assert p[..|lo| + 1] == p[..|lo|] + [p[|lo|]];
    } else {
      assert p == p[..|lo|];
    }
  }

  /**
   * If `after` adds to `before` the paths from `lo`'s next step towards `hi` down to `hi`, and
   * `lo` is already in `before`, then it adds the paths from `lo` down to `hi`.
   */
  lemma StepKeys(before: set<Hierarchy>, after: set<Hierarchy>, lo: Hierarchy, hi: Hierarchy)
    requires lo in before && |lo| < |hi| && Under(lo, hi)
    requires forall p :: p in after <==> p in before || (Under(lo + [hi[|lo|]], p) && Under(p, hi))
    ensures forall p :: p in after <==> p in before || (Under(lo, p) && Under(p, hi))
  {
    forall p
      ensures p in after <==> p in before || (Under(lo, p) && Under(p, hi))
    {
      if Under(lo, p) && Under(p, hi) {
        PathBetween(lo, p, hi);
      }
      if Under(lo + [hi[|lo|]], p) {
        assert p[..|lo|] == p[..|lo| + 1][..|lo|];
      }
    }
  }

  /** A new valid node without children is a subtree of its own. */
  lemma LeafShaped(r: Node, m: map<Hierarchy, Node>)
    requires m == map[r.path := r]
    requires r.children == map[] && r.isValid
    requires r.canonicalName == DottedName(r.path)
    ensures TrieShaped(m, r.path)
    ensures forall p :: p in m <==> Under(r.path, p) && Under(p, r.path)
    ensures forall p | p in m :: m[p].isValid == (p == r.path)
  {
    forall p
      ensures p in m <==> Under(r.path, p) && Under(p, r.path)
    {
      if Under(r.path, p) && Under(p, r.path) {
        assert p == p[..|r.path|];
      }
    }
    forall p, k | p + [k] in m
      ensures !Under(r.path, p)
    {
      assert |p + [k]| == |r.path|;
    }
  }

  /**
   * A new node `r` whose only child is the top of the subtree `below`, stored under that
   * child's segment, tops a subtree one level higher along the same chain towards `hi`.
   */
  lemma HangUnder(below: map<Hierarchy, Node>, r: Node, hi: Hierarchy, m: map<Hierarchy, Node>)
    requires |r.path| < |hi| && Under(r.path, hi)
    requires m == below[r.path := r]
    requires TrieShaped(below, r.path + [hi[|r.path|]])
    requires forall p :: p in below <==> Under(r.path + [hi[|r.path|]], p) && Under(p, hi)
    requires below[r.path + [hi[|r.path|]]].packagePoint == Some(hi[|r.path|])
    requires r.children == map[hi[|r.path|] := below[r.path + [hi[|r.path|]]]]
    requires r.canonicalName == DottedName(r.path)
    requires forall p | p in below :: below[p].isValid == (p == hi)
    requires !r.isValid
    ensures TrieShaped(m, r.path)
    ensures forall p :: p in m <==> Under(r.path, p) && Under(p, hi)
    ensures forall p | p in m :: m[p].isValid == (p == hi)
  {
    var k := hi[|r.path|];
    var top := r.path + [k];
    assert r.path !in below;
    forall p {:trigger p in m} | p in m
      ensures Under(r.path, p) && m[p].path == p && m[p].canonicalName == DottedName(p)
    {
      if p != r.path {
        assert p[..|r.path|] == p[..|top|][..|r.path|];
      }
    }
    forall p, k' {:trigger k' in m[p].children} | p in m && k' in m[p].children
      ensures p + [k'] in m && m[p].children[k'] == m[p + [k']]
    {
      if p == r.path {
        assert k' == k;
      } else {
        assert p + [k'] != r.path;
      }
    }
    forall p, k' {:trigger p + [k'] in m} | p + [k'] in m && Under(r.path, p)
      ensures p in m && k' in m[p].children && m[p + [k']].packagePoint == Some(k')
    {
      assert p + [k'] != r.path;
      assert (p + [k'])[..|top|] == top;
      if |p| == |r.path| {
        assert p == r.path;
        assert p + [k'] == top;
      } else {
        assert p[..|top|] == (p + [k'])[..|top|];
      }
    }
    forall p
      ensures p in m <==> Under(r.path, p) && Under(p, hi)
    {
      if Under(r.path, p) && Under(p, hi) {
        PathBetween(r.path, p, hi);
      }
    }
  }

  /**
   * Attaching a subtree `sub` under key `k` of the node at `prefix`, where `k` was free, keeps
   * the whole map trie-shaped.
   */
  twostate lemma Graft(m: map<Hierarchy, Node>, new sub: map<Hierarchy, Node>, new prefix: Hierarchy, new k: string)
    requires old(TrieShaped(m, []))
    requires TrieShaped(sub, prefix + [k])
    requires sub[prefix + [k]].packagePoint == Some(k)
    requires prefix in m
    requires k !in old(m[prefix].children)
    requires m[prefix].children == old(m[prefix].children)[k := sub[prefix + [k]]]
    requires forall p | p in m && p != prefix :: m[p].children == old(m[p].children)
    requires forall p | p in sub :: p !in m
    ensures TrieShaped(m + sub, [])
  {
    var top := prefix + [k];
    var total := m + sub;
    forall p {:trigger p in total} | p in total
      ensures Under([], p) && total[p].path == p && total[p].canonicalName == DottedName(p)
    {
      assert p[..0] == [];
    }
    forall p, k' {:trigger k' in total[p].children} | p in total && k' in total[p].children
      ensures p + [k'] in total && total[p].children[k'] == total[p + [k']]
    {
      if p in m && !(p == prefix && k' == k) {
        assert k' in old(m[p].children);
        assert p + [k'] !in sub;
      }
    }
    forall p, k' {:trigger p + [k'] in total} | p + [k'] in total && Under([], p)
      ensures p in total && k' in total[p].children && total[p + [k']].packagePoint == Some(k')
    {
      if p + [k'] in sub {
        assert (p + [k'])[..|top|] == top;
        if |p| == |prefix| {
          assert p == (p + [k'])[..|prefix|];
          assert p + [k'] == top;
        } else {
          assert p[..|top|] == (p + [k'])[..|top|];
        }
      } else {
        assert p[..0] == [];
        assert old(p in m && k' in m[p].children);
      }
    }
  }

  /** Changing only which nodes are valid keeps the shape. */
  twostate lemma ValidityKeepsShape(m: map<Hierarchy, Node>, new top: Hierarchy)
    requires old(TrieShaped(m, top))
    requires forall p | p in m :: m[p].children == old(m[p].children)
    ensures TrieShaped(m, top)
  {
    forall p, k {:trigger p + [k] in m} | p + [k] in m && Under(top, p)
      ensures p in m && k in m[p].children && m[p + [k]].packagePoint == Some(k)
    {
      assert old(p in m && k in m[p].children);
    }
  }

  /**
   * Hanging the chain `sub`, topped by `child`, under `child`'s segment of `node`, where that key
   * was free, keeps the map trie-shaped when no other node's children changed.
   */
  twostate lemma GraftKeepsShape(new m: map<Hierarchy, Node>, new node: Node, new child: Node, new sub: map<Hierarchy, Node>)
    requires old(allocated(m) && allocated(node) && allocated(child) && allocated(sub))
    requires old(TrieShaped(m, [])) && node.path in m && m[node.path] == node
    requires child.packagePoint.Some? && child.path == node.path + [child.packagePoint.value]
    requires child.packagePoint.value !in old(node.children)
    requires old(TrieShaped(sub, child.path)) && sub[child.path] == child
    requires forall p | p in sub :: sub[p] != node && p !in m
    requires node.children == old(node.children)[child.packagePoint.value := child]
    requires forall o: Node | old(allocated(o)) && o != node :: o.children == old(o.children)
    ensures TrieShaped(m + sub, [])
  {
    ValidityKeepsShape(sub, child.path);
    forall p | p in m && p != node.path
      ensures m[p].children == old(m[p].children)
    {
      assert m[p].path == p;
    }
    Graft(m, sub, node.path, child.packagePoint.value);
  }

  /**
   * Hanging the chain `sub`, topped by `child`, under a free key of `node` keeps the tree valid
   * when nothing else changed; the chain's leaf `hi` becomes registered.
   */
  twostate lemma GraftKeepsValid(new t: PackageTree, new node: Node, new child: Node, new sub: map<Hierarchy, Node>,
                                 new hi: Hierarchy)
    requires old(allocated(t) && allocated(node) && allocated(child) && allocated(sub))
    requires old(t.Valid()) && node.path in old(t.NodeAt) && old(t.NodeAt[node.path]) == node
    requires child.packagePoint.Some? && child.path == node.path + [child.packagePoint.value]
    requires child.packagePoint.value !in old(node.children)
    requires old(TrieShaped(sub, child.path)) && sub[child.path] == child
    requires hi in sub && forall p | p in sub :: sub[p] != node && sub[p].isValid == (p == hi)
    requires forall p | p in sub :: p !in old(t.NodeAt)
    requires t.NodeAt == old(t.NodeAt) + sub && t.Registered == old(t.Registered) + {hi}
    requires node.children == old(node.children)[child.packagePoint.value := child]
    requires forall o: Node | old(allocated(o)) :: (o != node ==> o.children == old(o.children)) && o.isValid == old(o.isValid)
    ensures t.Valid()
  {
    GraftKeepsShape(old(t.NodeAt), node, child, sub);
    GraftRegisters(old(t.NodeAt), old(t.Registered), sub, hi, t.NodeAt, t.Registered);
    assert [] !in sub;
  }

  /** After the graft, a node is valid exactly when its path is registered. */
  twostate lemma GraftRegisters(new m: map<Hierarchy, Node>, new registered: set<Hierarchy>, new sub: map<Hierarchy, Node>,
                                new hi: Hierarchy, new total: map<Hierarchy, Node>, new totalRegistered: set<Hierarchy>)
    requires old(allocated(m))
    requires forall p | p in m :: old(m[p].isValid) <==> p in registered
    requires forall p | p in registered :: p in m
    requires forall p | p in sub :: sub[p].isValid == (p == hi) && p !in m
    requires total == m + sub && totalRegistered == registered + {hi} && hi in sub
    requires forall p | p in m :: m[p].isValid == old(m[p].isValid)
    ensures forall p | p in total :: total[p].isValid <==> p in totalRegistered
  {
    forall p | p in total
      ensures total[p].isValid <==> p in totalRegistered
    {
      if p !in sub {
        assert total[p] == m[p];
      }
    }
  }

  /** Marking `n`, the node at the non-root path `hi`, valid keeps the tree valid, with `hi` registered. */
  twostate lemma MarkKeepsValid(new t: PackageTree, new n: Node, new hi: Hierarchy)
    requires old(allocated(t) && allocated(n))
    requires old(t.Valid()) && hi in old(t.NodeAt) && old(t.NodeAt[hi]) == n && hi != []
    requires t.NodeAt == old(t.NodeAt) && t.Registered == old(t.Registered) + {hi}
    requires n.isValid
    requires forall o: Node | old(allocated(o)) :: o.children == old(o.children)
    requires forall o: Node | old(allocated(o)) && o != n :: o.isValid == old(o.isValid)
    ensures t.Valid()
  {
    ValidityKeepsShape(t.NodeAt, []);
    forall p | p in t.NodeAt
      ensures t.NodeAt[p].isValid <==> p in t.Registered
    {
      assert old(t.NodeAt[p].path == p);
    }
  }

  /**
   * When the shape was `base` and the prefixes of the packages in `done`, adding the
   * prefixes of `element` makes it `base` and the prefixes of the packages in `done + {element}`.
   */
  lemma ShapeGrows(base: set<Hierarchy>, before: set<Hierarchy>, after: set<Hierarchy>,
                   done: set<Hierarchy>, element: Hierarchy)
    requires forall p :: p in before <==> p in base || exists e :: e in done && p <= e
    requires forall p :: p in after <==> p in before || p <= element
    ensures forall p :: p in after <==> p in base || exists e :: e in done + {element} && p <= e
  {
    forall p
      ensures p in after <==> p in base || exists e :: e in done + {element} && p <= e
    {
      if p in before && p !in base {
        var e :| e in done && p <= e;
        assert e in done + {element};
      }
      if p <= element {
        assert element in done + {element};
      }
      if exists e :: e in done + {element} && p <= e {
        var e :| e in done + {element} && p <= e;
        if e != element {
          assert e in done;
        }
      }
    }
  }

  /** Registering `element` (nothing for the empty hierarchy) on top of `base` and `done`. */
  lemma RegisteredGrows(base: set<Hierarchy>, before: set<Hierarchy>, after: set<Hierarchy>,
                        done: set<Hierarchy>, element: Hierarchy)
    requires forall p :: p in before <==> p in base || (p in done && p != [])
    requires after == before + (if element == [] then {} else {element})
    ensures forall p :: p in after <==> p in base || (p in done + {element} && p != [])
  {
  }

  /** The root alone, without children, is a trie. */
  lemma RootAloneShaped(r: Node)
    requires r.children == map[] && r.path == [] && r.canonicalName == None
    ensures TrieShaped(map[[] := r], [])
  {
    forall p: Hierarchy, k: string
      ensures p + [k] != []
    {
      assert |p + [k]| == |p| + 1;
    }
  }

  class PackageTree {
    const rootNode: Node
    /** The node at each path; the tree's shape is its key set. */
    ghost var NodeAt: map<Hierarchy, Node>
    /** The registered packages. */
    ghost var Registered: set<Hierarchy>

    /**
     * The root is the unregistered node of the empty path, NodeAt is the whole trie, and the
     * registered packages are exactly the paths of the valid nodes.
     */
    ghost predicate Valid()
      reads this, NodeAt.Values
    {
      && [] in NodeAt
      && NodeAt[[]] == rootNode
      && rootNode.packagePoint == None
      && !rootNode.isValid
      && TrieShaped(NodeAt, [])
      && (forall p {:trigger p in Registered} :: p in Registered ==> p in NodeAt)
      && (forall p {:trigger p in NodeAt} | p in NodeAt :: NodeAt[p].isValid <==> p in Registered)
    }

    /** The paths that have a node: the shape of the tree. */
    ghost function Shape(): set<Hierarchy>
      reads this
    {
      NodeAt.Keys
    }

    /** The root of a fresh tree, then every package of the set inserted. */
    constructor (packageElements: set<Hierarchy>)
      ensures Valid()
      ensures Registered == packageElements - {[]}
      ensures forall p :: p in Shape() <==> p == [] || exists e :: e in packageElements && p <= e
    {
      rootNode := new Node(None, None, false, []);
      NodeAt := map[[] := rootNode];
      Registered := {};
      new;
      RootAloneShaped(rootNode);
      AddPackagesToTree(packageElements);
      assert Registered == packageElements - {[]};
    }

    /** The constructor's loop: inserts every package of the set, in whatever order the set yields them. */
    method AddPackagesToTree(packageElements: set<Hierarchy>)
      requires Valid()
      modifies this, NodeAt.Values
      ensures Valid()
      ensures forall p :: p in Registered <==> p in old(Registered) || (p in packageElements && p != [])
      ensures forall p :: p in Shape() <==> p in old(Shape()) || exists e :: e in packageElements && p <= e
    {
      var remaining := packageElements;
      ghost var done: set<Hierarchy> := {};
      while remaining != {}
        invariant forall e :: e in packageElements <==> e in done || e in remaining
        invariant Valid()
        invariant fresh(NodeAt.Values - old(NodeAt.Values))
        invariant forall p :: p in Registered <==> p in old(Registered) || (p in done && p != [])
        invariant forall p :: p in Shape() <==> p in old(Shape()) || exists e :: e in done && p <= e
        decreases remaining
      {
        var element :| element in remaining;
        ghost var registered, shape := Registered, Shape();
        AddPackageToTree(element);
        RegisteredGrows(old(Registered), registered, Registered, done, element);
        ShapeGrows(old(Shape()), shape, Shape(), done, element);
        remaining := remaining - {element};
        done := done + {element};
      }
    }

    /**
     * addPackageToTree: inserts one package below the root; its path gets a node, every
     * prefix of it has one, and it is registered unless it is empty (an absent package).
     */
    method AddPackageToTree(element: Hierarchy)
      requires Valid()
      modifies this, NodeAt.Values
      ensures Valid()
      ensures forall p | p in old(NodeAt) :: p in NodeAt && NodeAt[p] == old(NodeAt[p])
      ensures forall p | p in NodeAt && p !in old(NodeAt) :: fresh(NodeAt[p])
      ensures fresh(NodeAt.Values - old(NodeAt.Values))
      ensures Registered == old(Registered) + (if element == [] then {} else {element})
      ensures forall p :: p in Shape() <==> p in old(Shape()) || p <= element
      ensures element in old(Registered) ==> Shape() == old(Shape()) && Registered == old(Registered)
    {
      ghost var shape := Shape();
      if element in Registered {
        TrieIsPrefixClosed(NodeAt, element);
      }
      assert [] + element == element;
      AddPackageToNode(element, rootNode, []);
      forall p
        ensures p in Shape() <==> p in old(Shape()) || p <= element
      {
        UnderIsPrefix(p, element);
        assert p[..0] == [];
      }
      forall p | p in old(NodeAt)
        ensures NodeAt[p] in old(NodeAt.Values)
      {
        assert old(NodeAt[p]) in old(NodeAt.Values);
      }
      forall o | o in NodeAt.Values - old(NodeAt.Values)
        ensures fresh(o)
      {
        var p :| p in NodeAt && NodeAt[p] == o;
      }
      if element in old(Registered) {
        ShapeUnchanged(shape, Shape(), element);
      }
    }

    /**
     * The name of the most specific registered package that the queried package `hierarchy`
     * lies in, or none when no registered package is a prefix of it.
     */
    method GetMatchingPackage(hierarchy: Hierarchy) returns (r: Option<string>)
      requires Valid()
      ensures Deepest(Registered, hierarchy).None? ==> r == None
      ensures Deepest(Registered, hierarchy).Some? ==> r == Some(Join(Deepest(Registered, hierarchy).value))
    {
      var node := FindDeepestMatchingNode(hierarchy);
      if node == null {
        r := None;
      } else {
        DeepestIsLongestRegisteredPrefix(Registered, hierarchy);
        assert [] !in Registered by { assert !NodeAt[[]].isValid; }
        r := node.canonicalName;
      }
    }

    /**
     * Find the deepest valid node on the path that `hierarchy` spells out, or null: the
     * walk stops at the first segment with no child.
     */
    method FindDeepestMatchingNode(hierarchy: Hierarchy) returns (lastMatch: Node?)
      requires Valid()
      ensures Deepest(Registered, hierarchy).None? ==> lastMatch == null
      ensures Deepest(Registered, hierarchy).Some? ==>
                && lastMatch != null
                && lastMatch.isValid
                && lastMatch.path == Deepest(Registered, hierarchy).value
                && lastMatch.canonicalName == DottedName(lastMatch.path)
                && lastMatch.path in NodeAt && NodeAt[lastMatch.path] == lastMatch
    {
      var nextNode: Node? := rootNode;
      lastMatch := null;
      var rest := hierarchy;
      ghost var depth := 0;
      while rest != []
        invariant 0 <= depth <= |hierarchy| && rest == hierarchy[depth..]
        invariant hierarchy[..depth] in NodeAt && nextNode == NodeAt[hierarchy[..depth]]
        invariant lastMatch == null ==> Deepest(Registered, hierarchy[..depth]).None?
        invariant lastMatch != null ==>
                    && lastMatch.path in NodeAt
                    && NodeAt[lastMatch.path] == lastMatch
                    && lastMatch.isValid
                    && Deepest(Registered, hierarchy[..depth]) == Some(lastMatch.path)
        decreases |rest|
      {
        var nextName := rest[0];
        nextNode := nextNode.Get(nextName);
        if nextNode == null {
          forall p | p in Registered && hierarchy[..depth] <= p
            ensures |p| == depth || p[depth] != hierarchy[depth]
          {
            if |p| > depth {
              assert Under([], p) by { assert p[..0] == []; }
              AncestorHasChild(NodeAt, [], p, depth);
              assert p[..depth] == hierarchy[..depth];
            }
          }
          DeepestStopsAtMissingChild(Registered, hierarchy, depth);
          break;
        }
        assert hierarchy[..depth + 1] == hierarchy[..depth] + [nextName];
        assert hierarchy[..depth + 1][..depth] == hierarchy[..depth];
        if nextNode.isValid {
          lastMatch := nextNode;
        }
        rest := rest[1..];
        depth := depth + 1;
      }
      assert rest == [] ==> hierarchy[..depth] == hierarchy;
    }

    /**
     * Walks down from `node` (the node at `prefix`) along `hierarchy`, creating the missing
     * nodes, and marks the node at the end valid.
     */
    method AddPackageToNode(hierarchy: Hierarchy, node: Node, ghost prefix: Hierarchy)
      requires Valid() && prefix in NodeAt && NodeAt[prefix] == node
      modifies this, NodeAt.Values
      ensures Valid()
      ensures forall p | p in old(NodeAt) :: p in NodeAt && NodeAt[p] == old(NodeAt[p])
      ensures forall p | p in NodeAt && p !in old(NodeAt) :: fresh(NodeAt[p])
      ensures forall p :: p in NodeAt <==> p in old(NodeAt) || (Under(prefix, p) && Under(p, prefix + hierarchy))
      ensures Registered == old(Registered) + (if hierarchy == [] then {} else {prefix + hierarchy})
      decreases |hierarchy|
    {
      ghost var hi := prefix + hierarchy;
      if hierarchy == [] {
        assert hi == prefix;
        forall p | Under(prefix, p) && Under(p, hi)
          ensures p in NodeAt
        {
          assert p == p[..|prefix|];
        }
        return;
      }
      var root := hierarchy[0];
      assert Under(prefix, hi) && hi[|prefix|] == root;
      var parentNode := node.Get(root);
      if parentNode == null {
        ghost var sub;
        parentNode, sub := CreateNodeForPackage(hierarchy, node.canonicalName, prefix);
        PutChild(node, prefix, parentNode, sub, hi);
        StepKeys(old(NodeAt).Keys, NodeAt.Keys, prefix, hi);
      } else if |hierarchy| == 1 {
        assert hi == prefix + [root];
        assert parentNode == NodeAt[hi];
        MarkValid(parentNode, hi);
        forall p | Under(prefix, p) && Under(p, hi)
          ensures p in NodeAt
        {
          PathBetween(prefix, p, hi);
          assert p == prefix || p == p[..|hi|];
        }
      } else {
        assert prefix + [root] + hierarchy[1..] == hi;
        AddPackageToNode(hierarchy[1..], parentNode, prefix + [root]);
        StepKeys(old(NodeAt).Keys, NodeAt.Keys, prefix, hi);
      }
    }

    /**
     * rootNode.children.put(parentNode.packagePoint, parentNode): hangs the new chain `sub`,
     * topped by `child`, under its free segment key of `node`; the chain's leaf `hi` is registered.
     */
    method PutChild(node: Node, ghost prefix: Hierarchy, child: Node, ghost sub: map<Hierarchy, Node>, ghost hi: Hierarchy)
      requires Valid() && prefix in NodeAt && NodeAt[prefix] == node
      requires child.packagePoint.Some? && child.path == prefix + [child.packagePoint.value]
      requires child.packagePoint.value !in node.children
      requires TrieShaped(sub, child.path) && sub[child.path] == child
      requires forall p :: p in sub <==> Under(child.path, p) && Under(p, hi)
      requires forall p | p in sub :: sub[p].isValid == (p == hi) && sub[p] != node
      modifies this, node
      ensures Valid()
      ensures NodeAt == old(NodeAt) + sub && Registered == old(Registered) + {hi}
      ensures forall p | p in sub :: p !in old(NodeAt)
    {
      var k := child.packagePoint.value;
      assert hi in sub by { assert hi[..|child.path|] == child.path; }
      NothingBelowMissingChild(NodeAt, prefix, k, sub.Keys);
      node.children := node.children[k := child];
      NodeAt := NodeAt + sub;
      Registered := Registered + {hi};
      GraftKeepsValid(this, node, child, sub, hi);
    }

    /** parentNode.isValid = true: registers the package at `hi`, whose node already exists. */
    method MarkValid(n: Node, ghost hi: Hierarchy)
      requires Valid() && hi in NodeAt && NodeAt[hi] == n && hi != []
      modifies this, n
      ensures Valid()
      ensures NodeAt == old(NodeAt) && Registered == old(Registered) + {hi}
    {
      n.isValid := true;
      Registered := Registered + {hi};
      MarkKeepsValid(this, n, hi);
    }

    /**
     * Creates the chain of nodes for `packageHierarchy` below a parent named `parentPackage`
     * at `parentPath`; only the leaf is valid. `sub` maps the new paths to the new nodes.
     */
    method CreateNodeForPackage(packageHierarchy: Hierarchy, parentPackage: Option<string>, ghost parentPath: Hierarchy)
      returns (r: Node, ghost sub: map<Hierarchy, Node>)
      requires packageHierarchy != []
      requires parentPackage == DottedName(parentPath)
      ensures r.path == parentPath + [packageHierarchy[0]] && r.packagePoint == Some(packageHierarchy[0])
      ensures TrieShaped(sub, r.path) && sub[r.path] == r
      ensures forall p :: p in sub <==> Under(r.path, p) && Under(p, parentPath + packageHierarchy)
      ensures forall p | p in sub :: fresh(sub[p])
      ensures forall p | p in sub :: sub[p].isValid == (p == parentPath + packageHierarchy)
      decreases |packageHierarchy|
    {
      if |packageHierarchy| == 1 {
        var leaf := packageHierarchy[0];
        CanonicalNameOfChild(parentPath, leaf);
        r := new Node(Some(leaf), parentPackage, true, parentPath + [leaf]);
        sub := map[r.path := r];
        assert parentPath + packageHierarchy == r.path;
        LeafShaped(r, sub);
      } else {
        var rootPackage := packageHierarchy[0];
        CanonicalNameOfChild(parentPath, rootPackage);
        r := new Node(Some(rootPackage), parentPackage, false, parentPath + [rootPackage]);
        var child;
        ghost var below;
        child, below := CreateNodeForPackage(packageHierarchy[1..], r.canonicalName, r.path);
        ghost var hi := parentPath + packageHierarchy;
        assert r.path + packageHierarchy[1..] == hi;
        assert hi[..|r.path|] == r.path && hi[|r.path|] == packageHierarchy[1];
        sub := PutOnlyChild(r, child, below, hi);
        forall p | p in sub
          ensures fresh(sub[p])
        {
          assert p == r.path || sub[p] == below[p];
        }
      }
    }

    /**
     * root.children.put(child.packagePoint, child): hangs the chain `below`, topped by `child`,
     * under the new node `r`; `sub` is the chain topped by `r`.
     */
    static method PutOnlyChild(r: Node, child: Node, ghost below: map<Hierarchy, Node>, ghost hi: Hierarchy)
      returns (ghost sub: map<Hierarchy, Node>)
      requires |r.path| < |hi| && Under(r.path, hi)
      requires r.children == map[] && r.canonicalName == DottedName(r.path) && !r.isValid
      requires child.packagePoint == Some(hi[|r.path|]) && child.path == r.path + [hi[|r.path|]]
      requires TrieShaped(below, child.path) && below[child.path] == child
      requires forall p :: p in below <==> Under(child.path, p) && Under(p, hi)
      requires forall p | p in below :: below[p].isValid == (p == hi)
      requires r !in below.Values
      modifies r
      ensures r.children == map[child.packagePoint.value := child]
      ensures sub == below[r.path := r]
      ensures TrieShaped(sub, r.path)
      ensures forall p :: p in sub <==> Under(r.path, p) && Under(p, hi)
      ensures forall p | p in sub :: sub[p].isValid == (p == hi)
    {
      r.children := r.children[child.packagePoint.value := child];
      sub := below[r.path := r];
      HangUnder(below, r, hi, sub);
    }
  }
}
