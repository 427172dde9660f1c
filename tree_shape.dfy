/** The node of the file tree and the facts every variant of the tree relies on.
    A tree is a root, a set `Repr` of every node ever made for it, the subset
    `Attached` of nodes still reachable from the root, and a bound on the depth
    of any node (the depth is ghost: the code passes it as a recursion argument). */
module TreeShape {
  import opened Slices

  datatype Kind = File | Folder

  class Node {
    const kind: Kind
    const path: string
    var children: seq<Node>
    const parent: Node?
    var expanded: bool
    // caches written by BuildLines in the line-addressed tree
    var line: int
    var prev: Node?
    var next: Node?
    ghost const depth: nat

    /** A node as a Go composite literal makes it: no children and zeroed caches. */
    constructor (kind: Kind, path: string, parent: Node?, expanded: bool, ghost depth: nat)
      ensures this.kind == kind && this.path == path && this.parent == parent
      ensures this.expanded == expanded && this.depth == depth
      ensures children == [] && line == 0 && prev == null && next == null
    {
      this.kind := kind;
      this.path := path;
      this.parent := parent;
      this.expanded := expanded;
      this.depth := depth;
      children := [];
      line := 0;
      prev := null;
      next := null;
    }
  }

  /** The structural invariant: parent and child links agree, depths step by one,
      only folders have children, no folder lists a child twice, and the attached
      nodes are closed under both links. */
  ghost predicate Shaped(root: Node, S: set<Node>, A: set<Node>, B: nat)
    reads S`children
  {
    && root in A && A <= S
    && root.parent == null && root.depth == 0 && root.kind == Folder
    && (forall n {:trigger n.depth} | n in S :: n.depth <= B)
    && (forall n {:trigger n.parent} | n in S && n.parent == null :: n == root)
    && (forall n {:trigger n.parent} | n in S && n.parent != null ::
          n.parent in S && n.depth == n.parent.depth + 1)
    && (forall n, i {:trigger n.children[i]} | n in S && 0 <= i < |n.children| ::
          n.children[i] in S && n.children[i].parent == n)
    && (forall n {:trigger n.children} | n in S && n.kind == File :: n.children == [])
    && (forall n {:trigger n.children} | n in S :: Distinct(n.children))
    && (forall n {:trigger n.parent} | n in A && n != root :: n.parent in A && n in n.parent.children)
    && (forall n, i {:trigger n.children[i]} | n in A && 0 <= i < |n.children| :: n.children[i] in A)
  }

  /** `c` may stand as a child at depth `d + 1` of the sequences below. */
  ghost predicate Fits(S: set<Node>, B: nat, d: nat, c: Node)
  {
    c in S && c.depth == d + 1 && c.depth <= B
  }

  /** The visible pre-order sequence of the subtree at `n`: `n`, then, when `n` is
      expanded, the visible sequences of its children in order. */
  ghost function Sub(S: set<Node>, B: nat, n: Node): (r: seq<Node>)
    reads S`children, S`expanded
    requires n in S && n.depth <= B
    ensures forall m | m in r :: m in S
    decreases B - n.depth, 2, 0
  {
    [n] + Below(S, B, n)
  }

  /** The visible nodes strictly below `n`. */
  ghost function Below(S: set<Node>, B: nat, n: Node): (r: seq<Node>)
    reads S`children, S`expanded
    requires n in S && n.depth <= B
    ensures forall m | m in r :: m in S
    decreases B - n.depth, 1, 0
  {
    if n.expanded then Kids(S, B, n.depth, n.children) else []
  }

  /** The visible sequences of the children `cs` (of a node at depth `d`), one after another. */
  ghost function Kids(S: set<Node>, B: nat, d: nat, cs: seq<Node>): (r: seq<Node>)
    reads S`children, S`expanded
    requires d <= B
    ensures forall m | m in r :: m in S
    decreases B - d, 0, |cs|
  {
    if cs == [] then []
    else (if Fits(S, B, d, cs[0]) then Sub(S, B, cs[0]) else []) + Kids(S, B, d, cs[1..])
  }

  /** The ancestor of `m` at depth `d` (or `m` itself when it is not deeper than `d`). */
  ghost function AncestorAt(S: set<Node>, m: Node, d: nat): (a: Node)
    requires m in S
    ensures a in S && a.depth <= m.depth
    decreases m.depth
  {
    if m.depth <= d then m
    else if m.parent == null || m.parent !in S || m.parent.depth >= m.depth then m
    else AncestorAt(S, m.parent, d)
  }

  /** `m` is `x` or lies below `x`. */
  ghost predicate IsDesc(S: set<Node>, m: Node, x: Node)
  {
    m in S && x in S && m.depth >= x.depth && AncestorAt(S, m, x.depth) == x
  }

  // ----- lemmas -----

  lemma {:induction false} KidsAppend(S: set<Node>, B: nat, d: nat, a: seq<Node>, b: seq<Node>)
    requires d <= B
    ensures Kids(S, B, d, a + b) == Kids(S, B, d, a) + Kids(S, B, d, b)
    decreases |a|
  {
    if a == [] {
      assert a + b == b;
    } else {
      assert (a + b)[0] == a[0] && (a + b)[1..] == a[1..] + b;
      KidsAppend(S, B, d, a[1..], b);
    }
  }

  lemma {:induction false} KidsMember(S: set<Node>, B: nat, d: nat, cs: seq<Node>, m: Node)
    returns (i: nat)
    requires d <= B && m in Kids(S, B, d, cs)
    ensures i < |cs| && Fits(S, B, d, cs[i]) && m in Sub(S, B, cs[i])
    decreases |cs|
  {
    if Fits(S, B, d, cs[0]) && m in Sub(S, B, cs[0]) {
      i := 0;
    } else {
      var j := KidsMember(S, B, d, cs[1..], m);
      i := j + 1;
    }
  }

  lemma {:induction false} AncestorDepth(root: Node, S: set<Node>, A: set<Node>, B: nat, m: Node, d: nat)
    requires Shaped(root, S, A, B) && m in S
    ensures AncestorAt(S, m, d) in S
    ensures AncestorAt(S, m, d).depth == if m.depth <= d then m.depth else d
    decreases m.depth
  {
    if m.depth > d {
      AncestorDepth(root, S, A, B, m.parent, d);
    }
  }

  /** Climbing to depth d1 and then to d2 is climbing to d2. */
  lemma {:induction false} AncestorCompose(root: Node, S: set<Node>, A: set<Node>, B: nat, m: Node, d1: nat, d2: nat)
    requires Shaped(root, S, A, B) && m in S && d2 <= d1
    ensures AncestorAt(S, m, d2) == AncestorAt(S, AncestorAt(S, m, d1), d2)
    decreases m.depth
  {
    AncestorDepth(root, S, A, B, m, d1);
    if m.depth > d1 {
      AncestorCompose(root, S, A, B, m.parent, d1, d2);
    }
  }

  /** Being below is transitive. */
  lemma {:induction false} DescTrans(root: Node, S: set<Node>, A: set<Node>, B: nat, m: Node, x: Node, y: Node)
    requires Shaped(root, S, A, B) && IsDesc(S, m, x) && IsDesc(S, x, y)
    ensures IsDesc(S, m, y)
  {
    AncestorCompose(root, S, A, B, m, x.depth, y.depth);
  }

  /** A child of `p` and everything below it lie below `p`. */
  lemma {:induction false} DescOfChild(root: Node, S: set<Node>, A: set<Node>, B: nat, m: Node, c: Node)
    requires Shaped(root, S, A, B) && IsDesc(S, m, c) && c.parent != null
    ensures IsDesc(S, m, c.parent)
  {
    assert IsDesc(S, c, c.parent);
    DescTrans(root, S, A, B, m, c, c.parent);
  }

  /** Every node of a visible subsequence is a node of the tree below its head. */
  lemma {:induction false} SubDesc(root: Node, S: set<Node>, A: set<Node>, B: nat, n: Node, m: Node)
    requires Shaped(root, S, A, B) && n in S && m in Sub(S, B, n)
    ensures IsDesc(S, m, n)
    decreases B - n.depth
  {
    if m != n {
      assert m in Kids(S, B, n.depth, n.children);
      var i := KidsMember(S, B, n.depth, n.children, m);
      SubDesc(root, S, A, B, n.children[i], m);
      DescOfChild(root, S, A, B, m, n.children[i]);
    }
  }

  /** A descendant of `x` has the same ancestors as `x` at depths up to `x`'s. */
  lemma {:induction false} DescAncestor(root: Node, S: set<Node>, A: set<Node>, B: nat, m: Node, x: Node, d: nat)
    requires Shaped(root, S, A, B) && m in S && x in S && d <= x.depth
    ensures IsDesc(S, m, x) ==> AncestorAt(S, m, d) == AncestorAt(S, x, d)
  {
    if IsDesc(S, m, x) {
      AncestorCompose(root, S, A, B, m, x.depth, d);
    }
  }

  lemma {:induction false} SubDescAll(root: Node, S: set<Node>, A: set<Node>, B: nat, n: Node)
    requires Shaped(root, S, A, B) && n in S
    ensures forall m | m in Sub(S, B, n) :: IsDesc(S, m, n)
  {
    forall m | m in Sub(S, B, n) ensures IsDesc(S, m, n) {
      SubDesc(root, S, A, B, n, m);
    }
  }

  lemma {:induction false} DistinctConcat<T>(a: seq<T>, b: seq<T>)
    requires Distinct(a) && Distinct(b)
    requires forall x | x in a :: x !in b
    ensures Distinct(a + b)
  {
    forall i, j | 0 <= i < j < |a + b| ensures (a + b)[i] != (a + b)[j] {
      if j >= |a| && i < |a| {
        assert (a + b)[i] in a && (a + b)[j] in b;
      } else if j < |a| {
        assert (a + b)[i] == a[i] && (a + b)[j] == a[j];
      } else {
        assert (a + b)[i] == b[i - |a|] && (a + b)[j] == b[j - |a|];
      }
    }
    DistinctIntro(a + b);
  }

  /** The children (from position j on) of `p` contribute disjoint, duplicate-free blocks. */
  lemma {:induction false} KidsDistinct(root: Node, S: set<Node>, A: set<Node>, B: nat, p: Node, j: nat)
    requires Shaped(root, S, A, B) && p in S && j <= |p.children|
    ensures Distinct(Kids(S, B, p.depth, p.children[j..]))
    decreases B - p.depth, |p.children| - j
  {
    var cs := p.children[j..];
    if cs != [] {
      var c := cs[0];
      assert cs[1..] == p.children[j + 1..];
      SubDistinct(root, S, A, B, c);
      KidsDistinct(root, S, A, B, p, j + 1);
      KidsApart(root, S, A, B, p, j);
      DistinctConcat(Sub(S, B, c), Kids(S, B, p.depth, cs[1..]));
    }
  }

  /** The block of child `j` shares no node with the blocks of the later children. */
  lemma {:induction false} KidsApart(root: Node, S: set<Node>, A: set<Node>, B: nat, p: Node, j: nat)
    requires Shaped(root, S, A, B) && p in S && j < |p.children|
    ensures var c := p.children[j];
      c in S && c.depth <= B &&
      forall m | m in Kids(S, B, p.depth, p.children[j + 1..]) :: m !in Sub(S, B, c)
  {
    var c := p.children[j];
    var cs := p.children[j + 1..];
    SubDescAll(root, S, A, B, c);
    forall m | m in Kids(S, B, p.depth, cs) ensures m !in Sub(S, B, c) {
      var i := KidsMember(S, B, p.depth, cs, m);
      assert cs[i] == p.children[j + 1 + i];
      SubDesc(root, S, A, B, cs[i], m);
      DescAncestor(root, S, A, B, m, c, c.depth);
    }
  }

  /** A visible subsequence never repeats a node. */
  lemma {:induction false} SubDistinct(root: Node, S: set<Node>, A: set<Node>, B: nat, n: Node)
    requires Shaped(root, S, A, B) && n in S
    ensures Distinct(Sub(S, B, n))
    decreases B - n.depth, |n.children| + 1
  {
    if n.expanded {
      assert n.children[0..] == n.children;
      KidsDistinct(root, S, A, B, n, 0);
      forall m | m in Below(S, B, n) ensures m != n {
        var i := KidsMember(S, B, n.depth, n.children, m);
        SubDesc(root, S, A, B, n.children[i], m);
      }
      DistinctConcat([n], Below(S, B, n));
    }
  }

  /** Pre-order: within the blocks of the children `cs` of a node at depth `d`, no node
      comes after one of its descendants. */
  lemma {:induction false} KidsPreorder(root: Node, S: set<Node>, A: set<Node>, B: nat, d: nat, cs: seq<Node>, i: nat, k: nat)
    requires Shaped(root, S, A, B) && d <= B && Distinct(cs)
    requires forall x | x in cs :: x in S && x.depth == d + 1
    requires i < k < |Kids(S, B, d, cs)|
    ensures var s := Kids(S, B, d, cs); !IsDesc(S, s[i], s[k])
    decreases B - d, |cs|
  {
    var s := Kids(S, B, d, cs);
    var c := cs[0];
    assert Fits(S, B, d, c);
    var first := Sub(S, B, c);
    var rest := Kids(S, B, d, cs[1..]);
    assert s == first + rest;
    assert cs == [c] + cs[1..];
    DistinctHead(c, cs[1..]);
    if k < |first| {
      SubPreorder(root, S, A, B, c, i, k);
      assert s[i] == first[i] && s[k] == first[k];
    } else if i >= |first| {
      KidsPreorder(root, S, A, B, d, cs[1..], i - |first|, k - |first|);
      assert s[i] == rest[i - |first|] && s[k] == rest[k - |first|];
    } else {
      assert s[i] == first[i] && s[k] == rest[k - |first|];
      KidsCross(root, S, A, B, d, c, cs[1..], s[i], s[k]);
    }
  }

  /** A node in the block of the child `c` never lies below a node in the block of a
      later child. */
  lemma {:induction false} KidsCross(root: Node, S: set<Node>, A: set<Node>, B: nat, d: nat, c: Node, cs: seq<Node>, x: Node, y: Node)
    requires Shaped(root, S, A, B) && d <= B && c !in cs
    requires c in S && c.depth == d + 1 && forall z | z in cs :: z in S && z.depth == d + 1
    requires x in Sub(S, B, c) && y in Kids(S, B, d, cs)
    ensures !IsDesc(S, x, y)
  {
    var h := KidsMember(S, B, d, cs, y);
    var c' := cs[h];
    SubDesc(root, S, A, B, c, x);
    SubDesc(root, S, A, B, c', y);
    DescAncestor(root, S, A, B, x, y, c.depth);
    DescAncestor(root, S, A, B, y, c', c.depth);
  }

  /** Pre-order: a visible subsequence lists every node before any of its descendants. */
  lemma {:induction false} SubPreorder(root: Node, S: set<Node>, A: set<Node>, B: nat, n: Node, i: nat, k: nat)
    requires Shaped(root, S, A, B) && n in S
    requires i < k < |Sub(S, B, n)|
    ensures var s := Sub(S, B, n); !IsDesc(S, s[i], s[k])
    decreases B - n.depth, |n.children| + 1
  {
    var s := Sub(S, B, n);
    assert s[k] == Below(S, B, n)[k - 1];
    if i == 0 {
      var h := KidsMember(S, B, n.depth, n.children, s[k]);
      SubDesc(root, S, A, B, n.children[h], s[k]);
    } else {
      assert s[i] == Below(S, B, n)[i - 1];
      KidsPreorder(root, S, A, B, n.depth, n.children, i - 1, k - 1);
    }
  }

  // ----- a heap-free copy of the visible tree -----

  /** The visible part of a subtree as a value: a node and the views of its
      children when it is expanded. */
  datatype View = View(node: Node, kids: seq<View>)

  /** The pre-order sequence of a view. */
  function Flat(v: View): (r: seq<Node>)
    ensures |r| >= 1 && r[0] == v.node
    decreases v, 1
  {
    [v.node] + FlatKids(v.kids)
  }

  function FlatKids(vs: seq<View>): seq<Node>
    decreases vs, 0
  {
    if vs == [] then [] else Flat(vs[0]) + FlatKids(vs[1..])
  }

  /** The nodes listed in a sequence. */
  ghost function NodesIn(s: seq<Node>): set<Node> {
    set m | m in s
  }

  /** Children sit one level below their parent, all the way down. */
  ghost predicate Layered(v: View)
    decreases v
  {
    forall j | 0 <= j < |v.kids| :: v.kids[j].node.depth == v.node.depth + 1 && Layered(v.kids[j])
  }

  /** Every view inside `v`, `v` included. */
  ghost function Views(v: View): set<View>
    decreases v, 1
  {
    {v} + ViewsKids(v.kids)
  }

  ghost function ViewsKids(vs: seq<View>): set<View>
    decreases vs, 0
  {
    if vs == [] then {} else Views(vs[0]) + ViewsKids(vs[1..])
  }

  lemma {:induction false} ViewsKidsHas(vs: seq<View>, j: nat)
    requires j < |vs|
    ensures Views(vs[j]) <= ViewsKids(vs)
    decreases j
  {
    if j > 0 {
      ViewsKidsHas(vs[1..], j - 1);
    }
  }

  lemma {:induction false} ViewsKidsFrom(vs: seq<View>, u: View) returns (j: nat)
    requires u in ViewsKids(vs)
    ensures j < |vs| && u in Views(vs[j])
    decreases |vs|
  {
    if u in Views(vs[0]) {
      j := 0;
    } else {
      j := ViewsKidsFrom(vs[1..], u);
      j := j + 1;
    }
  }

  /** Every view inside `v` agrees with its node's own `children` and `expanded` fields. */
  ghost predicate Mirrors(S: set<Node>, v: View)
    reads S`children, S`expanded
  {
    forall u | u in Views(v) ::
      && u.node in S
      && (if u.node.expanded then
            && |u.kids| == |u.node.children|
            && forall j | 0 <= j < |u.kids| :: u.kids[j].node == u.node.children[j]
          else u.kids == [])
  }

  lemma {:induction false} MirrorsKid(S: set<Node>, v: View, i: nat)
    requires Mirrors(S, v) && i < |v.kids|
    ensures Views(v.kids[i]) <= Views(v) && Mirrors(S, v.kids[i])
  {
    ViewsKidsHas(v.kids, i);
  }

  lemma {:induction false} MirrorsWithin(S: set<Node>, v: View)
    requires Mirrors(S, v)
    ensures forall m | m in Flat(v) :: m in S
    decreases v, 1
  {
    forall j | 0 <= j < |v.kids| ensures Mirrors(S, v.kids[j]) {
      MirrorsKid(S, v, j);
    }
    MirrorsWithinKids(S, v.kids);
  }

  lemma {:induction false} MirrorsWithinKids(S: set<Node>, vs: seq<View>)
    requires forall j | 0 <= j < |vs| :: Mirrors(S, vs[j])
    ensures forall m | m in FlatKids(vs) :: m in S
    decreases vs, 0
  {
    if vs != [] {
      MirrorsWithin(S, vs[0]);
      MirrorsWithinKids(S, vs[1..]);
    }
  }

  /** Every node below a mirrored view's node is in the footprint. */
  lemma {:induction false} KidsWithin(S: set<Node>, v: View)
    requires Mirrors(S, v)
    ensures forall k | 0 <= k < |FlatKids(v.kids)| :: FlatKids(v.kids)[k] in S
  {
    MirrorsWithin(S, v);
    forall k | 0 <= k < |FlatKids(v.kids)| ensures FlatKids(v.kids)[k] in S {
      assert FlatKids(v.kids)[k] == Flat(v)[k + 1];
    }
  }

  /** The view of the subtree of `n`, read from the heap. */
  ghost function Snap(S: set<Node>, B: nat, n: Node): View
    reads S`children, S`expanded
    requires n in S && n.depth <= B
    decreases B - n.depth, 1, 0
  {
    View(n, if n.expanded then SnapKids(S, B, n.depth, n.children) else [])
  }

  ghost function SnapKids(S: set<Node>, B: nat, d: nat, cs: seq<Node>): seq<View>
    reads S`children, S`expanded
    decreases B - d, 0, |cs|
  {
    if cs == [] then []
    else (if Fits(S, B, d, cs[0]) then [Snap(S, B, cs[0])] else []) + SnapKids(S, B, d, cs[1..])
  }

  lemma {:induction false} FlatKidsAppend(a: seq<View>, b: seq<View>)
    ensures FlatKids(a + b) == FlatKids(a) + FlatKids(b)
    decreases |a|
  {
    if a == [] {
      assert a + b == b;
    } else {
      assert (a + b)[0] == a[0] && (a + b)[1..] == a[1..] + b;
      FlatKidsAppend(a[1..], b);
    }
  }

  /** The blocks before, at and after child `i`. */
  lemma {:induction false} FlatKidsSplit(vs: seq<View>, i: nat)
    requires i < |vs|
    ensures FlatKids(vs[..i + 1]) == FlatKids(vs[..i]) + Flat(vs[i])
    ensures FlatKids(vs) == FlatKids(vs[..i]) + Flat(vs[i]) + FlatKids(vs[i + 1..])
  {
    var pre, one, post := vs[..i], [vs[i]], vs[i + 1..];
    assert vs[..i + 1] == pre + one;
    assert vs == pre + one + post;
    FlatKidsOne(vs[i]);
    FlatKidsAppend(pre, one);
    FlatKidsAppend(pre + one, post);
  }

  lemma {:induction false} FlatKidsOne(v: View)
    ensures FlatKids([v]) == Flat(v)
  {
    assert [v][1..] == [];
  }

  /** Under the shape invariant every child fits, so the snapshot mirrors the heap,
      is layered and flattens to the visible subtree. */
  lemma {:induction false} SnapFacts(root: Node, S: set<Node>, A: set<Node>, B: nat, n: Node)
    requires Shaped(root, S, A, B) && n in S
    ensures Snap(S, B, n).node == n
    ensures Mirrors(S, Snap(S, B, n)) && Layered(Snap(S, B, n))
    ensures Flat(Snap(S, B, n)) == Sub(S, B, n)
    decreases B - n.depth, 1
  {
    var v := Snap(S, B, n);
    if n.expanded {
      SnapKidsFacts(root, S, A, B, n.depth, n.children);
    }
    forall u | u in Views(v)
      ensures u.node in S
      ensures if u.node.expanded then
          |u.kids| == |u.node.children| && forall j | 0 <= j < |u.kids| :: u.kids[j].node == u.node.children[j]
        else u.kids == []
    {
      if u != v {
        var j := ViewsKidsFrom(v.kids, u);
      }
    }
  }

  lemma {:induction false} SnapKidsFacts(root: Node, S: set<Node>, A: set<Node>, B: nat, d: nat, cs: seq<Node>)
    requires Shaped(root, S, A, B) && d <= B
    requires forall c | c in cs :: c in S && c.depth == d + 1
    ensures |SnapKids(S, B, d, cs)| == |cs|
    ensures forall j | 0 <= j < |cs| ::
      SnapKids(S, B, d, cs)[j].node == cs[j] && Mirrors(S, SnapKids(S, B, d, cs)[j])
    ensures forall j | 0 <= j < |cs| :: Layered(SnapKids(S, B, d, cs)[j])
    ensures FlatKids(SnapKids(S, B, d, cs)) == Kids(S, B, d, cs)
    decreases B - d, 0, |cs|
  {
    if cs != [] {
      var c := cs[0];
      assert c in cs;
      assert Fits(S, B, d, c);
      SnapFacts(root, S, A, B, c);
      assert forall x | x in cs[1..] :: x in cs;
      SnapKidsFacts(root, S, A, B, d, cs[1..]);
      var vs := SnapKids(S, B, d, cs);
      assert vs == [Snap(S, B, c)] + SnapKids(S, B, d, cs[1..]);
      assert vs[1..] == SnapKids(S, B, d, cs[1..]);
    }
  }

  /** The parts of a distinct sequence are distinct and do not meet. */
  lemma {:induction false} DistinctParts<T>(a: seq<T>, b: seq<T>, c: seq<T>)
    requires Distinct(a + b + c)
    ensures Distinct(b) && Distinct(a + b)
    ensures forall x | x in a :: x !in b
  {
    forall i, j | 0 <= i < j < |b| ensures b[i] != b[j] {
      assert b[i] == (a + b + c)[|a| + i] && b[j] == (a + b + c)[|a| + j];
    }
    DistinctIntro(b);
    forall i, j | 0 <= i < j < |a + b| ensures (a + b)[i] != (a + b)[j] {
      assert (a + b)[i] == (a + b + c)[i] && (a + b)[j] == (a + b + c)[j];
    }
    DistinctIntro(a + b);
    forall i, j | 0 <= i < |a| && 0 <= j < |b| ensures a[i] != b[j] {
      assert a[i] == (a + b + c)[i] && b[j] == (a + b + c)[|a| + j];
    }
  }

  /** The snapshot of the whole tree: the root, then the visible sequence, all distinct. */
  lemma {:induction false} RootSnap(root: Node, S: set<Node>, A: set<Node>, B: nat)
    requires Shaped(root, S, A, B)
    ensures Snap(S, B, root).node == root
    ensures Mirrors(S, Snap(S, B, root)) && Layered(Snap(S, B, root))
    ensures Distinct(Flat(Snap(S, B, root)))
    ensures FlatKids(Snap(S, B, root).kids) == Below(S, B, root)
    ensures Distinct(Below(S, B, root)) && root !in Below(S, B, root)
  {
    var v := Snap(S, B, root);
    SnapFacts(root, S, A, B, root);
    SubDistinct(root, S, A, B, root);
    assert Flat(v)[1..] == FlatKids(v.kids);
    DistinctHead(root, Below(S, B, root));
  }

  /** The visible sequence lists distinct nodes, none of them the root. */
  lemma {:induction false} BelowDistinct(root: Node, S: set<Node>, A: set<Node>, B: nat)
    requires Shaped(root, S, A, B)
    ensures Distinct(Below(S, B, root)) && root !in Below(S, B, root)
  {
    SubDistinct(root, S, A, B, root);
    DistinctHead(root, Below(S, B, root));
  }

  /** The visible subtree of an attached node is attached. */
  lemma {:induction false} SubAttached(root: Node, S: set<Node>, A: set<Node>, B: nat, n: Node)
    requires Shaped(root, S, A, B) && n in A
    ensures forall m | m in Sub(S, B, n) :: m in A
    decreases B - n.depth, 1
  {
    if n.expanded {
      forall c | c in n.children ensures c in A {
        var i :| 0 <= i < |n.children| && n.children[i] == c;
      }
      KidsAttached(root, S, A, B, n.depth, n.children);
    }
  }

  lemma {:induction false} KidsAttached(root: Node, S: set<Node>, A: set<Node>, B: nat, d: nat, cs: seq<Node>)
    requires Shaped(root, S, A, B) && d <= B
    requires forall c | c in cs :: c in A
    ensures forall m | m in Kids(S, B, d, cs) :: m in A
    decreases B - d, 0, |cs|
  {
    if cs != [] {
      if Fits(S, B, d, cs[0]) {
        SubAttached(root, S, A, B, cs[0]);
      }
      KidsAttached(root, S, A, B, d, cs[1..]);
    }
  }

  /** The nodes of a block before `b` are not among the nodes of `b`. */
  lemma {:induction false} NodesApart(a: seq<Node>, b: seq<Node>, c: seq<Node>)
    requires Distinct(a + b + c)
    ensures Distinct(b) && Distinct(a + b)
    ensures forall k | 0 <= k < |a| :: a[k] !in NodesIn(b)
  {
    DistinctParts(a, b, c);
    forall k | 0 <= k < |a| ensures a[k] !in NodesIn(b) {
      assert a[k] in a;
    }
  }
}
