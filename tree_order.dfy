/** Where a node sits in the visible pre-order sequence of the root: the nodes shown
    before its subtree, the subtree itself, and the nodes shown after it. The pieces
    are read off the node's chain of parents, which is how the link-walking moves
    of fstree/fstree.go find their way. */
module TreeOrder {
  import opened Slices
  import opened TreeShape

  /** The visible nodes of the root shown before the subtree of `m`: for each ancestor
      below the root, that ancestor and what precedes it, then the subtrees of the
      older siblings of `m`. */
  ghost function Before(root: Node, S: set<Node>, A: set<Node>, B: nat, m: Node): seq<Node>
    reads S`children, S`expanded
    requires Shaped(root, S, A, B) && m in S
    decreases m.depth
  {
    var p := m.parent;
    if p == null then []
    else
      PositionBound(p.children, m);
      var j := Position(p.children, m);
      (if p.parent == null then [] else Before(root, S, A, B, p) + [p]) + Kids(S, B, p.depth, p.children[..j])
  }

  /** The visible nodes of the root shown after the subtree of `m`: the subtrees of its
      younger siblings, then what follows its parent. */
  ghost function After(root: Node, S: set<Node>, A: set<Node>, B: nat, m: Node): seq<Node>
    reads S`children, S`expanded
    requires Shaped(root, S, A, B) && m in S
    decreases m.depth
  {
    var p := m.parent;
    if p == null then []
    else
      var j := Position(p.children, m);
      Kids(S, B, p.depth, if j < |p.children| then p.children[j + 1..] else []) + After(root, S, A, B, p)
  }

  /** Children that may stand at depth `d + 1`, as every child list of the tree does. */
  ghost predicate AllFit(S: set<Node>, B: nat, d: nat, cs: seq<Node>)
  {
    forall c | c in cs :: Fits(S, B, d, c)
  }

  /** The child lists of a shaped tree fit. */
  lemma {:induction false} ChildrenFit(root: Node, S: set<Node>, A: set<Node>, B: nat, p: Node, lo: nat, hi: nat)
    requires Shaped(root, S, A, B) && p in S && lo <= hi <= |p.children|
    ensures AllFit(S, B, p.depth, p.children[lo..hi])
  {
    forall c | c in p.children[lo..hi] ensures Fits(S, B, p.depth, c) {
      var i :| lo <= i < hi && p.children[i] == c;
      assert c.parent == p;
    }
  }

  /** A single fitting child shows its own subtree. */
  lemma {:induction false} KidsOne(S: set<Node>, B: nat, d: nat, c: Node)
    requires d <= B && Fits(S, B, d, c)
    ensures Kids(S, B, d, [c]) == Sub(S, B, c)
  {
    assert [c][1..] == [];
  }

  /** The subtree of the `i`-th child is one contiguous piece of the list's sequence. */
  lemma {:induction false} KidsAt(S: set<Node>, B: nat, d: nat, cs: seq<Node>, i: nat)
    requires d <= B && i < |cs| && Fits(S, B, d, cs[i])
    ensures Kids(S, B, d, cs) == Kids(S, B, d, cs[..i]) + Sub(S, B, cs[i]) + Kids(S, B, d, cs[i + 1..])
    ensures Kids(S, B, d, cs[..i + 1]) == Kids(S, B, d, cs[..i]) + Sub(S, B, cs[i])
  {
    assert cs[..i + 1] == cs[..i] + [cs[i]];
    assert cs == cs[..i + 1] + cs[i + 1..];
    KidsOne(S, B, d, cs[i]);
    KidsAppend(S, B, d, cs[..i], [cs[i]]);
    KidsAppend(S, B, d, cs[..i + 1], cs[i + 1..]);
  }

  /** A non-empty list of fitting children shows its first child first, and an empty
      list shows nothing. */
  lemma {:induction false} KidsHead(S: set<Node>, B: nat, d: nat, cs: seq<Node>)
    requires d <= B && AllFit(S, B, d, cs)
    ensures Kids(S, B, d, cs) == [] <==> cs == []
    ensures cs != [] ==> Kids(S, B, d, cs)[0] == cs[0]
  {
    if cs != [] {
      assert cs[0] in cs;
    }
  }

  /** The parent of a node shown strictly below `n` is shown below `n` as well, is
      expanded, and lists the node among its children. */
  lemma {:induction false} ParentShown(root: Node, S: set<Node>, A: set<Node>, B: nat, n: Node, m: Node)
    requires Shaped(root, S, A, B) && n in S && m in Sub(S, B, n) && m != n
    ensures m.parent != null && m.parent in Sub(S, B, n) && m.parent.expanded && m in m.parent.children
    decreases B - n.depth
  {
    assert n.expanded && m in Kids(S, B, n.depth, n.children);
    var i := KidsMember(S, B, n.depth, n.children, m);
    var c := n.children[i];
    KidsAt(S, B, n.depth, n.children, i);
    if m == c {
      assert m.parent == n;
    } else {
      ParentShown(root, S, A, B, c, m);
    }
  }

  /** The parent of a node shown below the root: expanded, holding the node at the
      node's Position, and itself the root or shown below it. The children split
      around the node. */
  lemma {:induction false} ShownParent(root: Node, S: set<Node>, A: set<Node>, B: nat, m: Node)
    returns (p: Node, j: nat)
    requires Shaped(root, S, A, B) && m in Below(S, B, root)
    ensures m.depth <= B && m != root && p == m.parent && p in S && p.expanded
    ensures j == Position(p.children, m) && j < |p.children| && p.children[j] == m
    ensures p.parent == null ==> p == root
    ensures p.parent != null ==> p in Below(S, B, root)
    ensures Kids(S, B, p.depth, p.children) ==
      Kids(S, B, p.depth, p.children[..j]) + Sub(S, B, m) + Kids(S, B, p.depth, p.children[j + 1..])
  {
    BelowDistinct(root, S, A, B);
    assert m in Sub(S, B, root);
    ParentShown(root, S, A, B, root, m);
    p := m.parent;
    PositionIn(p.children, m);
    j := Position(p.children, m);
    assert Fits(S, B, p.depth, p.children[j]);
    KidsAt(S, B, p.depth, p.children, j);
  }

  /** The visible sequence of the root is what comes before `m`, the subtree of `m`,
      and what comes after it, for every node `m` on that sequence. */
  lemma {:induction false} Decompose(root: Node, S: set<Node>, A: set<Node>, B: nat, m: Node)
    requires Shaped(root, S, A, B) && m in Below(S, B, root)
    ensures m.depth <= B && m != root
    ensures Below(S, B, root) == Before(root, S, A, B, m) + Sub(S, B, m) + After(root, S, A, B, m)
    decreases m.depth
  {
    var p, j := ShownParent(root, S, A, B, m);
    if p.parent == null {
      DecomposeTop(root, S, A, B, m, p, j);
    } else {
      Decompose(root, S, A, B, p);
      DecomposeDeep(root, S, A, B, m, p, j);
    }
  }

  /** Decompose for a child of the root. */
  lemma {:induction false} DecomposeTop(root: Node, S: set<Node>, A: set<Node>, B: nat, m: Node, p: Node, j: nat)
    requires Shaped(root, S, A, B) && m in S && m.depth <= B && p == m.parent && p == root && p.expanded
    requires j == Position(p.children, m) && j < |p.children|
    requires Kids(S, B, p.depth, p.children) ==
      Kids(S, B, p.depth, p.children[..j]) + Sub(S, B, m) + Kids(S, B, p.depth, p.children[j + 1..])
    ensures Below(S, B, root) == Before(root, S, A, B, m) + Sub(S, B, m) + After(root, S, A, B, m)
  {
    var pre, post := Kids(S, B, p.depth, p.children[..j]), Kids(S, B, p.depth, p.children[j + 1..]);
    assert After(root, S, A, B, p) == [];
    assert After(root, S, A, B, m) == post + [] == post;
    assert Before(root, S, A, B, m) == [] + pre == pre;
    assert Below(S, B, root) == Kids(S, B, p.depth, p.children);
  }

  /** Decompose for a node whose parent is not the root, from Decompose for the parent. */
  lemma {:induction false} DecomposeDeep(root: Node, S: set<Node>, A: set<Node>, B: nat, m: Node, p: Node, j: nat)
    requires Shaped(root, S, A, B) && m in S && m.depth <= B && p == m.parent && p in S && p.parent != null
    requires p.expanded && j == Position(p.children, m) && j < |p.children|
    requires Kids(S, B, p.depth, p.children) ==
      Kids(S, B, p.depth, p.children[..j]) + Sub(S, B, m) + Kids(S, B, p.depth, p.children[j + 1..])
    requires Below(S, B, root) == Before(root, S, A, B, p) + Sub(S, B, p) + After(root, S, A, B, p)
    ensures Below(S, B, root) == Before(root, S, A, B, m) + Sub(S, B, m) + After(root, S, A, B, m)
  {
    var cs := p.children;
    var pre, post := Kids(S, B, p.depth, cs[..j]), Kids(S, B, p.depth, cs[j + 1..]);
    var bp, ap := Before(root, S, A, B, p), After(root, S, A, B, p);
    assert After(root, S, A, B, m) == post + ap;
    assert Before(root, S, A, B, m) == bp + [p] + pre;
    assert Sub(S, B, p) == [p] + (pre + Sub(S, B, m) + post);
    Regroup(bp, [p], pre, Sub(S, B, m), post, ap);
  }

  /** Moving the brackets of a six-part concatenation. */
  lemma {:induction false} Regroup<T>(a: seq<T>, b: seq<T>, c: seq<T>, d: seq<T>, e: seq<T>, f: seq<T>)
    ensures a + (b + (c + d + e)) + f == (a + b + c) + d + (e + f)
  {
    var cde := c + d + e;
    assert b + cde == (b + c + d) + e;
    assert a + (b + cde) == (a + b + c + d) + e;
  }

  /** The node of a distinct sequence `s == a + [x] + b` at the position of `x`. */
  lemma {:induction false} IndexOfMiddle<T>(s: seq<T>, a: seq<T>, x: T, b: seq<T>, k: nat)
    requires Distinct(s) && s == a + [x] + b && k < |s| && s[k] == x
    ensures k == |a|
  {
    assert s[|a|] == x;
    assert Position(s, s[k]) == k && Position(s, s[|a|]) == |a|;
  }
}
