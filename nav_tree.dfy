/** The older file tree of fstree/fstree.go: a root and a selection, and no caches.
    Its moves climb parent links and scan child lists; the lemmas here show that the
    climb finds the pre-order neighbours of the selection among the visible nodes. */
module NavTree {
  import opened Outcomes
  import opened Slices
  import opened TreeShape
  import opened TreeEdit
  import opened TreeOrder
  import opened TreeWalk
  import Paths

  /** The node the climbing loop of move settles on from `m`: the child `delta` places
      from `m` in its parent's list, else the same search one level up, until a node
      without a parent. A node its parent no longer lists finds nothing at that level. */
  ghost function Climb(root: Node, S: set<Node>, A: set<Node>, B: nat, m: Node, delta: int): (r: Option<Node>)
    reads S`children
    requires Shaped(root, S, A, B) && m in S
    ensures r.Some? ==> r.value in S && r.value.parent != null
    decreases m.depth
  {
    var p := m.parent;
    if p == null then None
    else
      var j := Position(p.children, m);
      if j < |p.children| && 0 <= j + delta < |p.children| then Some(p.children[j + delta])
      else Climb(root, S, A, B, p, delta)
  }

  /** Where the descent loop of move ends from `n`: down through last children while the
      node is expanded and has any. */
  ghost function LastDeep(root: Node, S: set<Node>, A: set<Node>, B: nat, n: Node): (r: Node)
    reads S`children, S`expanded
    requires Shaped(root, S, A, B) && n in S
    ensures r in S && (r == n || r.parent != null) && r.depth >= n.depth
    decreases B - n.depth
  {
    if n.children == [] || !n.expanded then n
    else LastDeep(root, S, A, B, n.children[|n.children| - 1])
  }

  /** The selection move(delta) leaves behind from `m`, one case per branch of the code:
      into the first child, up to the parent of a first child (except below the root),
      else to the sibling the climb finds, and, going up, down to the last visible
      descendant of a folder it lands on or stays at. */
  ghost function Moved(root: Node, S: set<Node>, A: set<Node>, B: nat, m: Node, delta: int): (r: Node)
    reads S`children, S`expanded
    requires Shaped(root, S, A, B) && m in S && m != root
  {
    if delta == 1 && m.kind == Folder && m.expanded && m.children != [] then m.children[0]
    else if delta == -1 && m.parent != root && m.parent.children != [] && m.parent.children[0] == m then m.parent
    else
      var s := match Climb(root, S, A, B, m, delta) case Some(c) => c case None => m;
      if delta == -1 && s.kind == Folder then LastDeep(root, S, A, B, s) else s
  }

  // ----- the climb and the descent against the pre-order sequence -----

  /** Climbing down-wards finds the first node shown after the subtree of `m`, and
      nothing exactly when nothing is shown after it. */
  lemma {:induction false} ClimbDown(root: Node, S: set<Node>, A: set<Node>, B: nat, m: Node)
    requires Shaped(root, S, A, B) && m in S
    ensures Climb(root, S, A, B, m, 1) ==
      if After(root, S, A, B, m) == [] then None else Some(After(root, S, A, B, m)[0])
    decreases m.depth
  {
    var p := m.parent;
    if p != null {
      var cs := p.children;
      var j := Position(cs, m);
      var tail := if j < |cs| then cs[j + 1..] else [];
      if j < |cs| {
        ChildrenFit(root, S, A, B, p, j + 1, |cs|);
        assert cs[j + 1..|cs|] == tail;
      }
      KidsHead(S, B, p.depth, tail);
      assert After(root, S, A, B, m) == Kids(S, B, p.depth, tail) + After(root, S, A, B, p);
      if tail == [] {
        ClimbDown(root, S, A, B, p);
      } else {
        assert tail[0] == cs[j + 1];
      }
    }
  }

  /** The descent ends at the last node of the visible subtree. */
  lemma {:induction false} LastOfSub(root: Node, S: set<Node>, A: set<Node>, B: nat, n: Node)
    requires Shaped(root, S, A, B) && n in S
    ensures n.depth <= B && Sub(S, B, n)[|Sub(S, B, n)| - 1] == LastDeep(root, S, A, B, n)
    decreases B - n.depth
  {
    var cs := n.children;
    if cs == [] || !n.expanded {
      assert Below(S, B, n) == [];
    } else {
      var i := |cs| - 1;
      var c := cs[i];
      assert Fits(S, B, n.depth, c);
      KidsAt(S, B, n.depth, cs, i);
      assert cs[i + 1..] == [];
      LastOfSub(root, S, A, B, c);
      assert Sub(S, B, n) == [n] + Kids(S, B, n.depth, cs[..i]) + Sub(S, B, c);
    }
  }

  /** The position of a visible node `C[k]`: right after the nodes shown before its
      subtree. */
  lemma {:induction false} PlaceOf(root: Node, S: set<Node>, A: set<Node>, B: nat, k: nat)
    requires Shaped(root, S, A, B) && k < |Below(S, B, root)|
    ensures var C := Below(S, B, root); var m := C[k];
      m in S && m.depth <= B && m != root &&
      k == |Before(root, S, A, B, m)| && C[..k] == Before(root, S, A, B, m) &&
      C[k + 1..] == Below(S, B, m) + After(root, S, A, B, m)
  {
    var C := Below(S, B, root);
    var m := C[k];
    Decompose(root, S, A, B, m);
    BelowDistinct(root, S, A, B);
    var bm, am := Before(root, S, A, B, m), After(root, S, A, B, m);
    Locate(C, bm, m, Below(S, B, m), am, k);
  }

  /** Where `x` stands in a distinct `a + ([x] + b) + c`, and what lies on either side. */
  lemma {:induction false} Locate<T>(s: seq<T>, a: seq<T>, x: T, b: seq<T>, c: seq<T>, k: nat)
    requires Distinct(s) && s == a + ([x] + b) + c && k < |s| && s[k] == x
    ensures k == |a| && s[..k] == a && s[k + 1..] == b + c
  {
    assert s == a + [x] + (b + c);
    IndexOfMiddle(s, a, x, b + c, k);
  }

  /** MoveDown selects the pre-order successor of a visible node among the visible
      nodes, and keeps the last one selected. */
  lemma {:induction false} MoveDownNext(root: Node, S: set<Node>, A: set<Node>, B: nat, k: nat)
    requires Shaped(root, S, A, B) && k < |Below(S, B, root)|
    ensures var C := Below(S, B, root);
      C[k] in S && C[k] != root &&
      Moved(root, S, A, B, C[k], 1) == if k + 1 < |C| then C[k + 1] else C[k]
  {
    var C := Below(S, B, root);
    PlaceOf(root, S, A, B, k);
    var m := C[k];
    var cs := m.children;
    if m.expanded && cs != [] {
      ChildrenFit(root, S, A, B, m, 0, |cs|);
      assert cs[0..|cs|] == cs;
      KidsHead(S, B, m.depth, cs);
      assert C[k + 1] == C[k + 1..][0];
    } else {
      assert Below(S, B, m) == [];
      ClimbDown(root, S, A, B, m);
      if k + 1 < |C| {
        assert C[k + 1] == C[k + 1..][0];
      }
    }
  }

  /** MoveUp selects the pre-order predecessor of a visible node, except at the very
      first visible node, where the descent still runs: a first top-level folder that is
      expanded and has children moves to its own last visible descendant. */
  lemma {:induction false} MoveUpPrev(root: Node, S: set<Node>, A: set<Node>, B: nat, k: nat)
    requires Shaped(root, S, A, B) && k < |Below(S, B, root)|
    ensures var C := Below(S, B, root);
      C[k] in S && C[k] != root &&
      Moved(root, S, A, B, C[k], -1) == if k > 0 then C[k - 1] else LastDeep(root, S, A, B, C[k])
  {
    var C := Below(S, B, root);
    PlaceOf(root, S, A, B, k);
    var m := C[k];
    var p, j := ShownParent(root, S, A, B, m);
    if j > 0 {
      UpFromLater(root, S, A, B, m, p, j);
      assert C[k - 1] == C[..k][k - 1];
    } else if p.parent != null {
      UpToParent(root, S, A, B, m, p);
      assert C[k - 1] == C[..k][k - 1];
    } else {
      UpFromFirst(root, S, A, B, m, p);
    }
  }

  /** MoveUp from the first child of a folder other than the root: the folder, which
      is the node shown just before. */
  lemma {:induction false} UpToParent(root: Node, S: set<Node>, A: set<Node>, B: nat, m: Node, p: Node)
    requires Shaped(root, S, A, B) && m in S && m != root && p == m.parent && p in S && p.parent != null
    requires 0 < |p.children| && Position(p.children, m) == 0 && p.children[0] == m
    ensures var bm := Before(root, S, A, B, m);
      bm != [] && Moved(root, S, A, B, m, -1) == bm[|bm| - 1] == p
  {
    var bm := Before(root, S, A, B, m);
    assert bm == Before(root, S, A, B, p) + [p] + Kids(S, B, p.depth, p.children[..0]);
    assert p.children[..0] == [];
  }

  /** MoveUp from a child that is not its parent's first: the last visible node of the
      previous sibling's subtree, which is the node shown just before. */
  lemma {:induction false} UpFromLater(root: Node, S: set<Node>, A: set<Node>, B: nat, m: Node, p: Node, j: nat)
    requires Shaped(root, S, A, B) && m in S && m != root && p == m.parent && p in S
    requires 0 < j < |p.children| && j == Position(p.children, m) && p.children[j] == m
    ensures var bm := Before(root, S, A, B, m);
      bm != [] && Moved(root, S, A, B, m, -1) == bm[|bm| - 1]
  {
    var cs := p.children;
    var c := cs[j - 1];
    assert Fits(S, B, p.depth, c);
    KidsAt(S, B, p.depth, cs, j - 1);
    assert cs[..j - 1 + 1] == cs[..j];
    LastOfSub(root, S, A, B, c);
    var lead := if p.parent == null then [] else Before(root, S, A, B, p) + [p];
    assert Before(root, S, A, B, m) == lead + Kids(S, B, p.depth, cs[..j - 1]) + Sub(S, B, c);
    assert cs[0] != m;
    assert Climb(root, S, A, B, m, -1) == Some(c);
  }

  /** MoveUp from the first child of the root: nothing is shown before it and the
      climb finds nothing, so only the descent moves the selection. */
  lemma {:induction false} UpFromFirst(root: Node, S: set<Node>, A: set<Node>, B: nat, m: Node, p: Node)
    requires Shaped(root, S, A, B) && m in S && m != root && p == m.parent && p in S && p.parent == null
    requires 0 < |p.children| && Position(p.children, m) == 0 && p.children[0] == m
    ensures Before(root, S, A, B, m) == []
    ensures Moved(root, S, A, B, m, -1) == LastDeep(root, S, A, B, m)
  {
    assert p == root;
    assert p.children[..0] == [];
    assert Climb(root, S, A, B, p, -1) == None;
    assert Climb(root, S, A, B, m, -1) == None;
  }

  /** The descent moves exactly from an expanded folder with children: so MoveUp at
      the first visible node changes the selection exactly in that case. */
  lemma {:induction false} DescentMoves(root: Node, S: set<Node>, A: set<Node>, B: nat, n: Node)
    requires Shaped(root, S, A, B) && n in S
    ensures LastDeep(root, S, A, B, n) == n <==> (n.children == [] || !n.expanded)
  {
    if n.children != [] && n.expanded {
      var c := n.children[|n.children| - 1];
      assert c.depth == n.depth + 1;
      assert LastDeep(root, S, A, B, n) == LastDeep(root, S, A, B, c);
    }
  }

  /** The index loop of move: the position `delta` away from the first occurrence of
      `child`, or -1 when the list does not hold it. */
  method SiblingIndex(children: seq<Node>, child: Node, delta: int) returns (nextIdx: int)
    ensures Position(children, child) < |children| ==> nextIdx == Position(children, child) + delta
    ensures Position(children, child) >= |children| ==> nextIdx == -1
  {
    nextIdx := -1;
    var idx := 0;
    while idx < |children|
      invariant 0 <= idx <= |children| && nextIdx == -1
      invariant forall k | 0 <= k < idx :: children[k] != child
    {
      if children[idx] == child {
        PositionAt(children, idx);
        nextIdx := idx + delta;
        return;
      }
      idx := idx + 1;
    }
    PositionMissing(children, child);
  }

  /** FileName: the last element of the node's path, never empty and free of
      separators except for the root "/". */
  function FileName(n: Node): (r: string)
    ensures r != "" && (r == "/" || Paths.NoSlash(r))
    ensures n.path == "" ==> r == "."
  {
    Paths.Base(n.path)
  }

  /** A node CreateNode made with a single, slash-free name shows that name. */
  lemma {:induction false} CreatedFileName(dir: string, name: string, n: Node)
    requires name != "" && Paths.NoSlash(name) && n.path == Paths.Join(dir, name)
    ensures FileName(n) == name
  {
    Paths.BaseOfJoin(dir, name);
  }

  class FsTree {
    const root: Node
    var selected: Node?
    ghost var Repr: set<Node>
    ghost var Attached: set<Node>
    ghost var maxDepth: nat

    ghost predicate Shape()
      reads this`Repr, this`Attached, this`maxDepth, Repr`children
    {
      Shaped(root, Repr, Attached, maxDepth)
    }

    /** The structure, and a selection inside the tree's nodes other than the root. */
    ghost predicate Valid()
      reads this`Repr, this`Attached, this`maxDepth, Repr`children, this`selected
    {
      Shape() && (selected == null || (selected in Repr && selected != root))
    }

    /** The root's visible descendants in pre-order. */
    ghost function Visible(): seq<Node>
      reads this`Repr, this`Attached, this`maxDepth, Repr`children, Repr`expanded
      requires Shape()
    {
      Below(Repr, maxDepth, root)
    }

    /** The tree over a walked root, selecting its first child when it has one. */
    constructor (r: Node, ghost S: set<Node>, ghost A: set<Node>, ghost B: nat)
      requires Shaped(r, S, A, B)
      ensures Valid() && root == r && Repr == S && Attached == A && maxDepth == B
      ensures selected == if r.children != [] then r.children[0] else null
    {
      root := r;
      Repr, Attached, maxDepth := S, A, B;
      selected := if r.children != [] then r.children[0] else null;
    }

    /** CreateNode: refuse a nil parent, a parent that is not a folder and an empty name,
        in that order; otherwise append one expanded node at Join(parent.path, name). */
    method CreateNode(parent: Node?, name: string, kind: Kind) returns (err: Outcome)
      requires Valid() && (parent == null || parent in Repr)
      modifies this`Repr, this`Attached, this`maxDepth, Repr`children
      ensures Valid() && selected == old(selected)
      ensures parent == null ==> err == Fail(NilNode)
      ensures parent != null && parent.kind != Folder ==> err == Fail(NotFolder)
      ensures parent != null && parent.kind == Folder && name == "" ==> err == Fail(EmptyName)
      ensures parent != null && parent.kind == Folder && name != "" ==> err == Ok
      ensures err.Fail? ==> unchanged(this) && unchanged(Repr)
      ensures err == Ok ==> (parent != null && |parent.children| == |old(parent.children)| + 1 &&
        var c := parent.children[|parent.children| - 1];
        && fresh(c) && parent.children == old(parent.children) + [c]
        && c.kind == kind && c.path == Paths.Join(parent.path, name) && c.parent == parent
        && c.expanded && c.children == []
        && Repr == old(Repr) + {c}
        && Attached == (if parent in old(Attached) then old(Attached) + {c} else old(Attached)))
      ensures err == Ok ==> forall n | n in old(Repr) && n != parent :: n.children == old(n.children)
    {
      if parent == null {
        return Fail(NilNode);
      }
      if parent.kind != Folder {
        return Fail(NotFolder);
      }
      if name == "" {
        return Fail(EmptyName);
      }
      var newNode := new Node(kind, Paths.Join(parent.path, name), parent, true, parent.depth + 1);
      AttachLast(parent, newNode, root, Repr, Attached, maxDepth);
      Repr, Attached, maxDepth := Repr + {newNode}, Grown(Attached, parent, newNode), Deeper(maxDepth, newNode.depth);
      return Ok;
    }

    /** DeleteNode: refuse a nil or parentless node; otherwise unhook it from its parent's
        children. The selection is left as it is. */
    method DeleteNode(node: Node?) returns (err: Outcome)
      requires Valid() && (node == null || node in Repr)
      modifies this`Attached, Repr`children
      ensures Valid() && selected == old(selected) && Repr == old(Repr)
      ensures node == null ==> err == Fail(NilNode)
      ensures node != null && node.parent == null ==> err == Fail(NoParent)
      ensures node != null && node.parent != null ==> err == Ok
      ensures err.Fail? ==> unchanged(this) && unchanged(Repr)
      ensures err == Ok ==> (node != null && node.parent != null &&
        node.parent.children == RemoveFirst<Node>(old(node.parent.children), node) && node !in node.parent.children)
      ensures err == Ok ==> forall n | n in Repr && n != node.parent :: n.children == old(n.children)
      ensures err == Ok ==> Attached == Remaining(Repr, old(Attached), node)
    {
      if node == null {
        return Fail(NilNode);
      }
      var parent := node.parent;
      if parent == null {
        return Fail(NoParent);
      }
      DetachChild(parent, node, root, Repr, Attached, maxDepth);
      Attached := Remaining(Repr, Attached, node);
      return Ok;
    }

    /** ToggleExpand: refuse a nil node and a file; otherwise flip the folder's flag. */
    method ToggleExpand(node: Node?) returns (err: Outcome)
      requires Valid() && (node == null || node in Repr)
      modifies Repr`expanded
      ensures Valid()
      ensures node == null ==> err == Fail(NilNode)
      ensures node != null && node.kind != Folder ==> err == Fail(NotFolder)
      ensures node != null && node.kind == Folder ==> err == Ok && node.expanded == !old(node.expanded)
      ensures forall n | n in Repr && n != node :: n.expanded == old(n.expanded)
      ensures err.Fail? ==> unchanged(Repr)
    {
      if node == null {
        return Fail(NilNode);
      }
      if node.kind != Folder {
        return Fail(NotFolder);
      }
      node.expanded := !node.expanded;
      return Ok;
    }

    /** ToggleSelectedExpand: refuse an empty selection and a selected file; otherwise
        toggle the selected folder. */
    method ToggleSelectedExpand() returns (err: Outcome)
      requires Valid()
      modifies Repr`expanded
      ensures Valid()
      ensures selected == null ==> err == Fail(NoSelection)
      ensures selected != null && selected.kind != Folder ==> err == Fail(NotFolder)
      ensures selected != null && selected.kind == Folder ==> err == Ok && selected.expanded == !old(selected.expanded)
      ensures forall n | n in Repr && n != selected :: n.expanded == old(n.expanded)
      ensures err.Fail? ==> unchanged(Repr)
    {
      if selected == null {
        return Fail(NoSelection);
      }
      if selected.kind != Folder {
        return Fail(NotFolder);
      }
      var _ := ToggleExpand(selected);
      return Ok;
    }

    /** move: refuse an empty selection and a delta other than -1 and 1; otherwise take
        the branches of Moved in turn. */
    method Move(delta: int) returns (err: Outcome)
      requires Valid()
      modifies this`selected
      ensures Valid()
      ensures old(selected) == null ==> err == Fail(NoSelection) && selected == null
      ensures old(selected) != null && delta != 1 && delta != -1 ==> err == Fail(BadDelta) && selected == old(selected)
      ensures old(selected) != null && (delta == 1 || delta == -1) ==>
        err == Ok && selected == Moved(root, Repr, Attached, maxDepth, old(selected), delta)
    {
      if selected == null {
        return Fail(NoSelection);
      }
      if delta != -1 && delta != 1 {
        return Fail(BadDelta);
      }
      var m := selected;
      if delta == 1 && m.kind == Folder && m.expanded && |m.children| > 0 {
        selected := m.children[0];
        return Ok;
      }
      if delta == -1 && m.parent != root {
        var parent := m.parent;
        if |parent.children| > 0 && parent.children[0] == m {
          selected := parent;
          return Ok;
        }
      }
      Sideways(m, delta);
      if delta == -1 && selected.kind == Folder {
        Descend();
      }
      return Ok;
    }

    /** The climbing loop of move from `m`: select the sibling Climb finds, if any. */
    method Sideways(m: Node, delta: int)
      requires Shape() && m in Repr && m != root && selected == m
      modifies this`selected
      ensures selected == match Climb(root, Repr, Attached, maxDepth, m, delta) case Some(c) => c case None => m
    {
      ghost var found := Climb(root, Repr, Attached, maxDepth, m, delta);
      var siblingFor := m;
      while siblingFor.parent != null
        invariant siblingFor in Repr && selected == m
        invariant Climb(root, Repr, Attached, maxDepth, siblingFor, delta) == found
        decreases siblingFor.depth
      {
        var parent := siblingFor.parent;
        var nextIdx := SiblingIndex(parent.children, siblingFor, delta);
        if 0 <= nextIdx < |parent.children| {
          selected := parent.children[nextIdx];
          return;
        }
        siblingFor := parent;
      }
    }

    /** The descent loop of move: from the selection down through last children while
        expanded. */
    method Descend()
      requires Shape() && selected != null && selected in Repr
      modifies this`selected
      ensures selected == LastDeep(root, Repr, Attached, maxDepth, old(selected))
    {
      var current := selected;
      while current.children != [] && current.expanded
        invariant current in Repr
        invariant LastDeep(root, Repr, Attached, maxDepth, current) == LastDeep(root, Repr, Attached, maxDepth, old(selected))
        decreases maxDepth - current.depth
      {
        current := current.children[|current.children| - 1];
      }
      selected := current;
    }

    /** MoveDown: the visible node after the selection, or the selection itself at the
        last visible node. */
    method MoveDown() returns (err: Outcome)
      requires Valid()
      modifies this`selected
      ensures Valid()
      ensures old(selected) == null ==> err == Fail(NoSelection) && selected == null
      ensures old(selected) != null ==> err == Ok
      ensures forall k | 0 <= k < |Visible()| && Visible()[k] == old(selected) ::
        selected == (if k + 1 < |Visible()| then Visible()[k + 1] else old(selected))
    {
      err := Move(1);
      forall k {:trigger Visible()[k]} | 0 <= k < |Visible()| && Visible()[k] == old(selected)
        ensures selected == if k + 1 < |Visible()| then Visible()[k + 1] else old(selected)
      {
        MoveDownNext(root, Repr, Attached, maxDepth, k);
      }
    }

    /** MoveUp: the visible node before the selection; at the first visible node, that
        node's last visible descendant. */
    method MoveUp() returns (err: Outcome)
      requires Valid()
      modifies this`selected
      ensures Valid()
      ensures old(selected) == null ==> err == Fail(NoSelection) && selected == null
      ensures old(selected) != null ==> err == Ok
      ensures forall k | 0 <= k < |Visible()| && Visible()[k] == old(selected) ::
        selected == if k > 0 then Visible()[k - 1] else LastDeep(root, Repr, Attached, maxDepth, old(selected))
    {
      err := Move(-1);
      forall k {:trigger Visible()[k]} | 0 <= k < |Visible()| && Visible()[k] == old(selected)
        ensures selected == if k > 0 then Visible()[k - 1] else LastDeep(root, Repr, Attached, maxDepth, old(selected))
      {
        MoveUpPrev(root, Repr, Attached, maxDepth, k);
      }
    }
  }

  /** NewFsTree: an expanded folder root at `rootPath`, walked from the listing with the
      walk's error ignored, selecting the root's first child when there is one. */
  method NewFsTree(rootPath: string, dirs: Listing) returns (t: FsTree)
    requires Named(dirs)
    ensures fresh(t) && t.Valid()
    ensures t.root.kind == Folder && t.root.expanded && t.root.path == rootPath
    ensures Matches(t.root, rootPath, Expected(dirs, rootPath, true))
    ensures t.selected == if t.root.children != [] then t.root.children[0] else null
  {
    var r, S, A, B := PlantSorted(dirs, rootPath);
    t := new FsTree(r, S, A, B);
  }
}
