/** The two structural edits of the file tree: hanging a new node under a folder and
    unhooking a node from its parent's child list. Each keeps the structural invariant,
    with the footprint and the attached set adjusted. */
module TreeEdit {
  import opened Slices
  import opened TreeShape

  /** The attached nodes that are not `node` and do not lie below it. */
  ghost function Remaining(S: set<Node>, A: set<Node>, node: Node): set<Node>
  {
    set m | m in A && !IsDesc(S, m, node)
  }

  /** The depth bound once a node at depth `d` joins. */
  function Deeper(B: nat, d: nat): nat
  {
    if d > B then d else B
  }

  /** The attached set once `c` hangs under `folder`: `c` is attached when `folder` is. */
  function Grown(A: set<Node>, folder: Node, c: Node): set<Node>
  {
    if folder in A then A + {c} else A
  }

  /** The new, childless node `c` may hang under the folder `folder`. */
  ghost predicate Hangs(folder: Node, c: Node, root: Node, S: set<Node>, A: set<Node>, B: nat)
    reads S`children, c`children
  {
    && Shaped(root, S, A, B) && folder in S && folder.kind == Folder
    && c !in S && c.parent == folder && c.children == [] && c.depth == folder.depth + 1
  }

  /** Put the new node `c` first among the children of `folder` (where CreateNode puts files). */
  method AttachFirst(folder: Node, c: Node, ghost root: Node, ghost S: set<Node>, ghost A: set<Node>, ghost B: nat)
    requires Hangs(folder, c, root, S, A, B)
    modifies folder`children
    ensures folder.children == [c] + old(folder.children)
    ensures Shaped(root, S + {c}, Grown(A, folder, c), Deeper(B, c.depth))
  {
    ghost var before := folder.children;
    folder.children := [c] + folder.children;
    ghost var S', A', B' := S + {c}, Grown(A, folder, c), Deeper(B, c.depth);
    assert forall x | x in before :: x in S;
    DistinctConcat([c], before);
    forall n, i | n in S' && 0 <= i < |n.children| ensures n.children[i] in S' && n.children[i].parent == n {
      if n == folder && i > 0 {
        assert n.children[i] == before[i - 1];
      }
    }
    ParentLinks(root, S, A, B, c);
  }

  /** Put the new node `c` last among the children of `folder` (where CreateNode puts folders). */
  method AttachLast(folder: Node, c: Node, ghost root: Node, ghost S: set<Node>, ghost A: set<Node>, ghost B: nat)
    requires Hangs(folder, c, root, S, A, B)
    modifies folder`children
    ensures folder.children == old(folder.children) + [c]
    ensures Shaped(root, S + {c}, Grown(A, folder, c), Deeper(B, c.depth))
  {
    ghost var before := folder.children;
    folder.children := folder.children + [c];
    ghost var S', A', B' := S + {c}, Grown(A, folder, c), Deeper(B, c.depth);
    assert forall x | x in before :: x in S;
    DistinctConcat(before, [c]);
    forall n, i | n in S' && 0 <= i < |n.children| ensures n.children[i] in S' && n.children[i].parent == n {
      if n == folder && i < |before| {
        assert n.children[i] == before[i];
      }
    }
    ParentLinks(root, S, A, B, c);
  }

  /** The parent-side conjuncts of the invariant, which no child list affects, for the
      footprint grown by `c`. */
  lemma {:induction false} ParentLinks(root: Node, S: set<Node>, A: set<Node>, B: nat, c: Node)
    requires root in A && A <= S
    requires forall n {:trigger n.depth} | n in S :: n.depth <= B
    requires forall n {:trigger n.parent} | n in S && n.parent == null :: n == root
    requires forall n {:trigger n.parent} | n in S && n.parent != null :: n.parent in S && n.depth == n.parent.depth + 1
    requires c.parent != null && c.parent in S && c.depth == c.parent.depth + 1
    ensures forall n {:trigger n.depth} | n in S + {c} :: n.depth <= Deeper(B, c.depth)
    ensures forall n {:trigger n.parent} | n in S + {c} && n.parent == null :: n == root
    ensures forall n {:trigger n.parent} | n in S + {c} && n.parent != null ::
      n.parent in S + {c} && n.depth == n.parent.depth + 1
  {
  }

  /** Below `node`, a child and its parent go together: the child of a node below
      `node` is below it, and a node strictly below `node` has its parent below it. */
  lemma {:induction false} DescParent(root: Node, S: set<Node>, A: set<Node>, B: nat, node: Node)
    requires Shaped(root, S, A, B) && node in S
    ensures forall m | m in S && m.parent != null && IsDesc(S, m.parent, node) :: IsDesc(S, m, node)
    ensures forall m | m in S && m.parent != null && m != node && IsDesc(S, m, node) :: IsDesc(S, m.parent, node)
  {
    forall m | m in S && m.parent != null && IsDesc(S, m.parent, node) ensures IsDesc(S, m, node) {
      assert IsDesc(S, m, m.parent);
      DescTrans(root, S, A, B, m, m.parent, node);
    }
    forall m | m in S && m.parent != null && m != node && IsDesc(S, m, node) ensures IsDesc(S, m.parent, node) {
      AncestorDepth(root, S, A, B, m, node.depth);
    }
  }

  /** Unhook `node` from its parent's child list, as utils.RemoveFromSlice does. Its
      subtree stops being attached. */
  method DetachChild(parent: Node, node: Node,
                     ghost root: Node, ghost S: set<Node>, ghost A: set<Node>, ghost B: nat)
    requires Shaped(root, S, A, B) && node in S && node.parent == parent
    modifies parent`children
    ensures parent.children == RemoveFirst(old(parent.children), node)
    ensures node !in parent.children
    ensures Shaped(root, S, Remaining(S, A, node), B)
  {
    ghost var before := parent.children;
    DescParent(root, S, A, B, node);
    parent.children := RemoveFromSlice(parent.children, node);
    RemoveFirstDistinct(before, node);
    ghost var A' := Remaining(S, A, node);
    assert IsDesc(S, node, node);
    forall n, i | n in S && 0 <= i < |n.children| ensures n.children[i] in S && n.children[i].parent == n {
      if n == parent {
        assert n.children[i] in before;
      }
    }
    forall n, i | n in A' && 0 <= i < |n.children| ensures n.children[i] in A' {
      if n == parent {
        assert n.children[i] in before;
      }
    }
  }

  /** In the visible sequence `C` of the root, the node before `C[k]` is attached and
      does not lie below `C[k]`: it survives the removal of `C[k]`'s subtree. */
  lemma {:induction false} PrevOutside(root: Node, S: set<Node>, A: set<Node>, B: nat, C: seq<Node>, k: nat)
    requires Shaped(root, S, A, B) && C == Below(S, B, root) && 0 < k < |C|
    ensures C[k - 1] in Remaining(S, A, C[k])
  {
    SubPreorder(root, S, A, B, root, k, k + 1);
    SubAttached(root, S, A, B, root);
    assert C[k - 1] in Sub(S, B, root);
  }
}
