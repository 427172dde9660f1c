/** The flattened, line-addressed file tree of internal/ui/fstree/model.go and its
    main-package copy fstree.go. Every mutator ends by rebuilding the line map and the
    prev/next chain from a pre-order walk that descends only into expanded folders. */
module LineTree {
  import opened Outcomes
  import opened TreeShape
  import opened Slices
  import Paths
  import Gateway
  import opened GoArith
  import opened TreeEdit
  import opened TreeWalk

  // ----- line numbering, as a function of the visible sequence -----

  /** A folder directly under the root; it gets a blank line above it unless it would be line 0. */
  ghost predicate TopFolder(n: Node)
  {
    n.kind == Folder && n.depth == 1
  }

  /** Which nodes of `s` are folders directly under the root. */
  ghost function Gaps(s: seq<Node>): (g: seq<bool>)
    ensures |g| == |s| && forall k | 0 <= k < |s| :: g[k] == TopFolder(s[k])
    decreases |s|
  {
    if s == [] then [] else [TopFolder(s[0])] + Gaps(s[1..])
  }

  lemma {:induction false} GapsAppend(a: seq<Node>, b: seq<Node>)
    ensures Gaps(a + b) == Gaps(a) + Gaps(b)
  {
    assert forall k | 0 <= k < |a + b| :: (a + b)[k] == if k < |a| then a[k] else b[k - |a|];
  }

  /** The line a node gets when the counter stands at `L`; `gap` marks a folder directly
      under the root. */
  function Place(L: int, gap: bool): int {
    if gap && L != 0 then L + 1 else L
  }

  /** The line numbers given to a run of nodes with gap flags `g` when numbering starts at `L`. */
  function Nums(L: int, g: seq<bool>): (r: seq<int>)
    ensures |r| == |g|
    decreases |g|
  {
    if g == [] then [] else [Place(L, g[0])] + Nums(Place(L, g[0]) + 1, g[1..])
  }

  /** The counter after numbering the run. */
  function EndLine(L: int, g: seq<bool>): int
    decreases |g|
  {
    if g == [] then L else EndLine(Place(L, g[0]) + 1, g[1..])
  }

  /** The entries the numbering adds to the line map. */
  function LinesOf<T>(L: int, g: seq<bool>, s: seq<T>): map<int, T>
    requires |g| == |s|
    decreases |s|
  {
    if s == [] then map[] else map[Place(L, g[0]) := s[0]] + LinesOf(Place(L, g[0]) + 1, g[1..], s[1..])
  }

  lemma {:induction false} NumsAppend(L: int, a: seq<bool>, b: seq<bool>)
    ensures Nums(L, a + b) == Nums(L, a) + Nums(EndLine(L, a), b)
    ensures EndLine(L, a + b) == EndLine(EndLine(L, a), b)
    decreases |a|
  {
    if a == [] {
      assert a + b == b;
    } else {
      assert (a + b)[0] == a[0] && (a + b)[1..] == a[1..] + b;
      NumsAppend(Place(L, a[0]) + 1, a[1..], b);
    }
  }

  /** Map union is associative; stated apart so that the proofs above and below need
      not rediscover it among their other facts. */
  lemma {:induction false} UnionAssoc<K, V>(m1: map<K, V>, m2: map<K, V>, m3: map<K, V>)
    ensures m1 + (m2 + m3) == (m1 + m2) + m3
  {
  }

  /** The line map after storing a run of nodes one by one, as the walk does. */
  function Store<T>(m: map<int, T>, L: int, g: seq<bool>, s: seq<T>): map<int, T>
    requires |g| == |s|
    decreases |s|
  {
    if s == [] then m else Store(m[Place(L, g[0]) := s[0]], Place(L, g[0]) + 1, g[1..], s[1..])
  }

  lemma {:induction false} StoreAppend<T>(m: map<int, T>, L: int, g: seq<bool>, h: seq<bool>, a: seq<T>, b: seq<T>)
    requires |g| == |a| && |h| == |b|
    ensures Store(m, L, g + h, a + b) == Store(Store(m, L, g, a), EndLine(L, g), h, b)
    decreases |a|
  {
    if a == [] {
      assert a + b == b && g + h == h;
    } else {
      assert (a + b)[0] == a[0] && (a + b)[1..] == a[1..] + b;
      assert (g + h)[0] == g[0] && (g + h)[1..] == g[1..] + h;
      StoreAppend(m[Place(L, g[0]) := a[0]], Place(L, g[0]) + 1, g[1..], h, a[1..], b);
    }
  }

  /** Storing one by one is the same as adding all the entries at once. */
  lemma {:induction false} StoreIsUnion<T>(m: map<int, T>, L: int, g: seq<bool>, s: seq<T>)
    requires |g| == |s|
    ensures Store(m, L, g, s) == m + LinesOf(L, g, s)
    decreases |s|
  {
    if s != [] {
      var l := Place(L, g[0]);
      StoreIsUnion(m[l := s[0]], l + 1, g[1..], s[1..]);
      assert m[l := s[0]] == m + map[l := s[0]];
      UnionAssoc(m, map[l := s[0]], LinesOf(l + 1, g[1..], s[1..]));
    }
  }

  lemma {:induction false} StoreOne<T>(m: map<int, T>, L: int, gap: bool, x: T)
    ensures Store(m, L, [gap], [x]) == m[Place(L, gap) := x]
  {
    assert [x][1..] == [] && [gap][1..] == [];
  }

  lemma {:induction false} LinesOfAppend<T>(L: int, g: seq<bool>, h: seq<bool>, a: seq<T>, b: seq<T>)
    requires |g| == |a| && |h| == |b|
    ensures LinesOf(L, g + h, a + b) == LinesOf(L, g, a) + LinesOf(EndLine(L, g), h, b)
    decreases |a|
  {
    if a == [] {
      assert a + b == b && g + h == h;
    } else {
      var l := Place(L, g[0]);
      assert (a + b)[0] == a[0] && (a + b)[1..] == a[1..] + b;
      assert (g + h)[0] == g[0] && (g + h)[1..] == g[1..] + h;
      LinesOfAppend(l + 1, g[1..], h, a[1..], b);
      UnionAssoc(map[l := a[0]], LinesOf(l + 1, g[1..], a[1..]), LinesOf(EndLine(L, g), h, b));
    }
  }

  /** Numbers rise strictly, start at `L` or later, and stay below the final counter. */
  lemma {:induction false} NumsRise(L: int, g: seq<bool>)
    ensures forall k | 0 <= k < |g| :: L <= Nums(L, g)[k] < EndLine(L, g)
    ensures L <= EndLine(L, g)
    ensures g != [] ==> EndLine(L, g) == Nums(L, g)[|g| - 1] + 1
    decreases |g|
  {
    if g != [] {
      var l := Place(L, g[0]);
      NumsRise(l + 1, g[1..]);
      var r := Nums(l + 1, g[1..]);
      assert forall k | 1 <= k < |g| :: Nums(L, g)[k] == r[k - 1];
    }
  }

  /** From a counter of at least 0, each line is one past the previous one,
      or two past it before a gap-flagged node. */
  lemma {:induction false} NumsStep(L: int, g: seq<bool>, k: nat)
    requires L >= 0 && k + 1 < |g|
    ensures Nums(L, g)[k + 1] == Nums(L, g)[k] + (if g[k + 1] then 2 else 1)
    decreases k
  {
    var l := Place(L, g[0]);
    if k == 0 {
      NumsRise(l + 1, g[1..]);
    } else {
      NumsStep(l + 1, g[1..], k - 1);
    }
  }

  /** Every number in the line map is at least the starting counter. */
  lemma {:induction false} LinesOfLow<T>(L: int, g: seq<bool>, s: seq<T>, x: int)
    requires |g| == |s| && x in LinesOf(L, g, s)
    ensures L <= x
  {
    LinesOfKeys(L, g, s, x);
    NumsRise(L, g);
  }

  /** The line map maps each number to its node. */
  lemma {:induction false} LinesOfAt<T>(L: int, g: seq<bool>, s: seq<T>)
    requires |g| == |s|
    ensures forall k | 0 <= k < |s| ::
      Nums(L, g)[k] in LinesOf(L, g, s) && LinesOf(L, g, s)[Nums(L, g)[k]] == s[k]
    decreases |s|
  {
    if s != [] {
      var l := Place(L, g[0]);
      var rest := LinesOf(l + 1, g[1..], s[1..]);
      LinesOfAt(l + 1, g[1..], s[1..]);
      forall x | x in rest ensures l < x {
        LinesOfLow(l + 1, g[1..], s[1..], x);
      }
      var r := Nums(l + 1, g[1..]);
      assert forall k | 1 <= k < |s| :: Nums(L, g)[k] == r[k - 1];
    }
  }

  /** The line map holds no other numbers. */
  lemma {:induction false} LinesOfKeys<T>(L: int, g: seq<bool>, s: seq<T>, x: int)
    requires |g| == |s| && x in LinesOf(L, g, s)
    ensures exists k :: 0 <= k < |s| && Nums(L, g)[k] == x
    decreases |s|
  {
    var l := Place(L, g[0]);
    if x != l {
      LinesOfKeys(l + 1, g[1..], s[1..], x);
      var k :| 0 <= k < |s| - 1 && Nums(l + 1, g[1..])[k] == x;
      assert Nums(L, g)[k + 1] == x;
    } else {
      assert Nums(L, g)[0] == x;
    }
  }

  // ----- numbering a view, step by step -----

  /** Numbering a view numbers its node, then the blocks of its children. */
  lemma {:induction false} NumberHead(v: View, L: int, m: map<int, Node>)
    ensures EndLine(L, Gaps(Flat(v))) == EndLine(Place(L, TopFolder(v.node)) + 1, Gaps(FlatKids(v.kids)))
    ensures Store(m, L, Gaps(Flat(v)), Flat(v)) ==
      Store(m[Place(L, TopFolder(v.node)) := v.node], Place(L, TopFolder(v.node)) + 1,
            Gaps(FlatKids(v.kids)), FlatKids(v.kids))
    ensures Nums(L, Gaps(Flat(v))) == [Place(L, TopFolder(v.node))] + Nums(Place(L, TopFolder(v.node)) + 1, Gaps(FlatKids(v.kids)))
  {
    var R := FlatKids(v.kids);
    assert Flat(v)[1..] == R;
    assert Gaps(Flat(v))[1..] == Gaps(R);
  }

  /** The numbers given to a view: its node's, then its children's blocks'. */
  lemma {:induction false} NumsHead(v: View, L: int)
    ensures Nums(L, Gaps(Flat(v))) == [Place(L, TopFolder(v.node))] + Nums(Place(L, TopFolder(v.node)) + 1, Gaps(FlatKids(v.kids)))
  {
    var R := FlatKids(v.kids);
    assert Flat(v)[1..] == R;
    assert Gaps(Flat(v))[1..] == Gaps(R);
  }

  /** The line fields of a view's nodes, from its node's and its children's. */
  lemma {:induction false} HeadLines(v: View, L: int)
    requires v.node.line == Place(L, TopFolder(v.node))
    requires forall k | 0 <= k < |FlatKids(v.kids)| ::
      FlatKids(v.kids)[k].line == Nums(Place(L, TopFolder(v.node)) + 1, Gaps(FlatKids(v.kids)))[k]
    ensures forall k | 0 <= k < |Flat(v)| :: Flat(v)[k].line == Nums(L, Gaps(Flat(v)))[k]
  {
    NumsHead(v, L);
    forall k | 0 <= k < |Flat(v)| ensures Flat(v)[k].line == Nums(L, Gaps(Flat(v)))[k] {
      if k > 0 {
        assert Flat(v)[k] == FlatKids(v.kids)[k - 1];
      }
    }
  }

  /** One more child block: how the sequence, the counter and the map grow. */
  lemma {:induction false} KidsStepNumbering(ks: seq<View>, i: nat, L: int, m: map<int, Node>, flat: seq<Node>)
    requires i < |ks|
    ensures FlatKids(ks[..i + 1]) == FlatKids(ks[..i]) + Flat(ks[i])
    ensures flat + FlatKids(ks[..i + 1]) == (flat + FlatKids(ks[..i])) + Flat(ks[i])
    ensures EndLine(L, Gaps(FlatKids(ks[..i + 1]))) ==
      EndLine(EndLine(L, Gaps(FlatKids(ks[..i]))), Gaps(Flat(ks[i])))
    ensures Store(m, L, Gaps(FlatKids(ks[..i + 1])), FlatKids(ks[..i + 1])) ==
      Store(Store(m, L, Gaps(FlatKids(ks[..i])), FlatKids(ks[..i])),
            EndLine(L, Gaps(FlatKids(ks[..i]))), Gaps(Flat(ks[i])), Flat(ks[i]))
  {
    var P, Q := FlatKids(ks[..i]), Flat(ks[i]);
    FlatKidsSplit(ks, i);
    GapsAppend(P, Q);
    NumsAppend(L, Gaps(P), Gaps(Q));
    StoreAppend(m, L, Gaps(P), Gaps(Q), P, Q);
    AppendAssoc(flat, P, Q);
  }

  /** The line fields of two consecutive blocks. */
  lemma {:induction false} StepLines(P: seq<Node>, Q: seq<Node>, L: int)
    requires forall k | 0 <= k < |P| :: P[k].line == Nums(L, Gaps(P))[k]
    requires forall k | 0 <= k < |Q| :: Q[k].line == Nums(EndLine(L, Gaps(P)), Gaps(Q))[k]
    ensures forall k | 0 <= k < |P + Q| :: (P + Q)[k].line == Nums(L, Gaps(P + Q))[k]
  {
    GapsAppend(P, Q);
    NumsAppend(L, Gaps(P), Gaps(Q));
    forall k | 0 <= k < |P + Q| ensures (P + Q)[k].line == Nums(L, Gaps(P + Q))[k] {
      if k >= |P| {
        assert (P + Q)[k] == Q[k - |P|];
      }
    }
  }

  /** The walk from the root: the root takes line -1 and its visible nodes follow from 0. */
  lemma {:induction false} RootNumbering(v: View)
    requires v.node.depth == 0
    ensures Store(map[], -1, Gaps(Flat(v)), Flat(v)) ==
      map[-1 := v.node] + LinesOf(0, Gaps(FlatKids(v.kids)), FlatKids(v.kids))
    ensures EndLine(-1, Gaps(Flat(v))) == EndLine(0, Gaps(FlatKids(v.kids)))
    ensures Nums(-1, Gaps(Flat(v))) == [-1] + Nums(0, Gaps(FlatKids(v.kids)))
  {
    var R := FlatKids(v.kids);
    var e: map<int, Node> := map[];
    NumberHead(v, -1, e);
    StoreIsUnion(e[-1 := v.node], 0, Gaps(R), R);
    var one: map<int, Node> := map[-1 := v.node];
    assert e[-1 := v.node] == one;
  }

  /** The line fields after the walk from the root. */
  lemma {:induction false} RootLines(v: View)
    requires v.node.depth == 0
    requires forall k | 0 <= k < |Flat(v)| :: Flat(v)[k].line == Nums(-1, Gaps(Flat(v)))[k]
    ensures v.node.line == -1
    ensures forall k | 0 <= k < |FlatKids(v.kids)| ::
      FlatKids(v.kids)[k].line == Nums(0, Gaps(FlatKids(v.kids)))[k]
  {
    NumsHead(v, -1);
    assert Place(-1, TopFolder(v.node)) == -1;
    forall k | 0 <= k < |FlatKids(v.kids)| ensures FlatKids(v.kids)[k].line == Nums(0, Gaps(FlatKids(v.kids)))[k] {
      assert FlatKids(v.kids)[k] == Flat(v)[k + 1];
    }
  }

  /** The line map only holds nodes of the run. */
  lemma {:induction false} LinesOfValues<T>(L: int, g: seq<bool>, s: seq<T>)
    requires |g| == |s|
    ensures forall x | x in LinesOf(L, g, s) :: LinesOf(L, g, s)[x] in s
  {
    LinesOfAt(L, g, s);
    forall x | x in LinesOf(L, g, s) ensures LinesOf(L, g, s)[x] in s {
      LinesOfKeys(L, g, s, x);
    }
  }

  /** The neighbours the chain gives the node at position `k` of the visible sequence. */
  function PrevOf(C: seq<Node>, k: int): Node?
    requires 0 <= k < |C|
  {
    if k == 0 then null else C[k - 1]
  }

  function NextOf(C: seq<Node>, k: int): Node?
    requires 0 <= k < |C|
  {
    if k == |C| - 1 then null else C[k + 1]
  }

  /** The end of BuildLines: the walk `flatTree` (the root, then the visible nodes `C`)
      gets nil in the root's slot and one more nil at the end, and each visible node is
      linked to its neighbours in it. */
  method LinkFlat(flatTree: seq<Node>, ghost C: seq<Node>, ghost S: set<Node>)
    requires |flatTree| >= 1 && flatTree[1..] == C
    requires forall k | 0 <= k < |C| :: C[k] in S
    requires Distinct(C)
    requires forall n | n in S :: (n.prev == null || n.prev in S) && (n.next == null || n.next in S)
    modifies NodesIn(C)`prev, NodesIn(C)`next
    ensures forall k | 0 <= k < |C| :: C[k].prev == PrevOf(C, k) && C[k].next == NextOf(C, k)
    ensures forall n | n in S :: (n.prev == null || n.prev in S) && (n.next == null || n.next in S)
    ensures forall k | 0 <= k < |C| :: C[k].line == old(C[k].line)
  {
    var flat: seq<Node?> := [null] + flatTree[1..] + [null];
    forall k | 0 <= k < |C| ensures flat[k + 1] == C[k] && flat[k] == PrevOf(C, k) && flat[k + 2] == NextOf(C, k) {
      if k > 0 {
        assert flat[k] == C[k - 1];
      }
      if k < |C| - 1 {
        assert flat[k + 2] == C[k + 1];
      }
    }
    var i := 1;
    while i < |flat| - 1
      invariant 1 <= i <= |flat| - 1
      invariant forall k | 0 <= k < i - 1 :: C[k].prev == PrevOf(C, k) && C[k].next == NextOf(C, k)
      invariant forall n | n in S :: (n.prev == null || n.prev in S) && (n.next == null || n.next in S)
    {
      assert flat[i] == C[i - 1] && flat[i - 1] == PrevOf(C, i - 1) && flat[i + 1] == NextOf(C, i - 1);
      LinkOne(flat[i], flat[i - 1], flat[i + 1], C, S, i - 1);
      i := i + 1;
    }
  }

  /** One turn of that loop: link the `k`-th visible node to its neighbours `p` and `q`. */
  method LinkOne(n: Node, p: Node?, q: Node?, ghost C: seq<Node>, ghost S: set<Node>, ghost k: nat)
    requires k < |C| && C[k] == n && Distinct(C) && p == PrevOf(C, k) && q == NextOf(C, k)
    requires forall j | 0 <= j < |C| :: C[j] in S
    requires forall j | 0 <= j < k :: C[j].prev == PrevOf(C, j) && C[j].next == NextOf(C, j)
    requires forall m | m in S :: (m.prev == null || m.prev in S) && (m.next == null || m.next in S)
    modifies n`prev, n`next
    ensures forall j | 0 <= j < k + 1 :: C[j].prev == PrevOf(C, j) && C[j].next == NextOf(C, j)
    ensures forall m | m in S :: (m.prev == null || m.prev in S) && (m.next == null || m.next in S)
  {
    n.prev := p;
    n.next := q;
    forall j | 0 <= j < k ensures C[j] != n {
      assert Position(C, C[j]) == j;
    }
  }

  /** The nodes reached by following `next` from `n`, for at most `fuel` steps. */
  ghost function FollowNext(S: set<Node>, n: Node?, fuel: nat): seq<Node>
    reads S`next
  {
    if fuel == 0 || n == null || n !in S then [] else [n] + FollowNext(S, n.next, fuel - 1)
  }

  /** getViewportBounds: a window of `height` lines centred on the selected line when
      it can be, pushed up against the end of the tree when it cannot. */
  function ViewportBounds(hasSelection: bool, selectedLine: int, height: int, totalLines: int): (r: (int, int))
    ensures !hasSelection ==> r == (0, 0)
    ensures hasSelection && height >= 0 && totalLines >= 0 ==>
      0 <= r.0 <= r.1 <= totalLines && r.1 - r.0 <= height
    ensures hasSelection && height >= 1 && 0 <= selectedLine < totalLines ==>
      r.0 <= selectedLine < r.1
  {
    if !hasSelection then (0, 0)
    else
      var halfHeight := Quo(height, 2);
      var start := Max(0, selectedLine - halfHeight);
      var end := start + height;
      if end > totalLines then (Max(0, totalLines - height), totalLines)
      else (start, end)
  }

  /** Following `next` from the `k`-th node of a linked sequence walks the rest of it. */
  lemma {:induction false} ChainFollows(S: set<Node>, C: seq<Node>, k: nat)
    requires k <= |C|
    requires forall j | 0 <= j < |C| :: C[j] in S && C[j].next == NextOf(C, j)
    ensures FollowNext(S, if k < |C| then C[k] else null, |C| - k) == C[k..]
    decreases |C| - k
  {
    if k < |C| {
      ChainFollows(S, C, k + 1);
      assert C[k..] == [C[k]] + C[k + 1..];
    }
  }

  /** Following `next` from the head of a linked sequence walks all of it. */
  lemma {:induction false} ChainFromHead(S: set<Node>, C: seq<Node>)
    requires C != []
    requires forall j | 0 <= j < |C| :: C[j] in S && C[j].next == NextOf(C, j)
    ensures FollowNext(S, C[0], |C|) == C
  {
    ChainFollows(S, C, 0);
    assert C[0..] == C;
  }

  /** What the numbering promises about the line map built over `C` from line 0 with
      the root `r` at -1: the root at -1, each node at its own line, and no other keys. */
  lemma {:induction false} NumberedMap(C: seq<Node>, r: Node, m: map<int, Node>, total: int)
    requires forall k | 0 <= k < |C| :: C[k].line == Nums(0, Gaps(C))[k]
    requires m == map[-1 := r] + LinesOf(0, Gaps(C), C)
    requires total == EndLine(0, Gaps(C))
    ensures -1 in m && m[-1] == r
    ensures forall k | 0 <= k < |C| :: 0 <= C[k].line < total && C[k].line in m && m[C[k].line] == C[k]
    ensures forall x | x in m && x != -1 :: exists k :: 0 <= k < |C| && C[k].line == x
  {
    var g := Gaps(C);
    NumsRise(0, g);
    LinesOfAt(0, g, C);
    forall x | x in LinesOf(0, g, C) ensures 0 <= x && exists k :: 0 <= k < |C| && C[k].line == x {
      LinesOfLow(0, g, C, x);
      LinesOfKeys(0, g, C, x);
    }
  }

  lemma {:induction false} LineStep(C: seq<Node>, k: nat)
    requires k + 1 < |C|
    requires C[k].line == Nums(0, Gaps(C))[k] && C[k + 1].line == Nums(0, Gaps(C))[k + 1]
    ensures C[k + 1].line == C[k].line + (if TopFolder(C[k + 1]) then 2 else 1)
  {
    NumsStep(0, Gaps(C), k);
  }

  /** The line numbers along `C`: the first is 0, each is one past the previous, or two
      past it before a folder directly under the root, and the count is one past the last. */
  lemma {:induction false} NumberedSteps(C: seq<Node>, total: int)
    requires forall k | 0 <= k < |C| :: C[k].line == Nums(0, Gaps(C))[k]
    requires total == EndLine(0, Gaps(C))
    ensures C != [] ==> C[0].line == 0
    ensures forall k | 0 <= k < |C| - 1 :: C[k + 1].line == C[k].line + (if TopFolder(C[k + 1]) then 2 else 1)
    ensures total == if C == [] then 0 else C[|C| - 1].line + 1
  {
    NumsRise(0, Gaps(C));
    forall k | 0 <= k < |C| - 1 ensures C[k + 1].line == C[k].line + (if TopFolder(C[k + 1]) then 2 else 1) {
      LineStep(C, k);
    }
  }

  // ----- names -----

  /** FileName: the last path element, without the ".md" extension for a file. */
  function FileName(n: Node): (r: string)
    ensures n.kind == Folder ==> r == Paths.Base(n.path)
    ensures n.kind == File ==> r + (if Paths.HasSuffix(Paths.Base(n.path), ".md") then ".md" else "") == Paths.Base(n.path)
  {
    var name := Paths.Base(n.path);
    if n.kind == File then Paths.TrimSuffix(name, ".md") else name
  }

  /** The entry name CreateNode uses: a file name gets ".md" unless it already ends so. */
  function EntryName(name: string, kind: Kind): (r: string)
    ensures kind == File ==> Paths.HasSuffix(r, ".md")
    ensures kind == File ==> r == name || r == name + ".md"
    ensures Paths.HasSuffix(name, ".md") || kind == Folder ==> r == name
  {
    if kind == File && !Paths.HasSuffix(name, ".md") then
      assert (name + ".md")[|name|..] == ".md";
      name + ".md"
    else name
  }

  /** The display name of a created node is the name it was created with, less any ".md":
      FileName undoes EntryName and Join for a non-empty, slash-free name. */
  lemma {:induction false} CreatedName(dir: string, name: string, kind: Kind, n: Node)
    requires name != "" && Paths.NoSlash(name)
    requires n.kind == kind && n.path == Paths.Join(dir, EntryName(name, kind))
    ensures FileName(n) == if kind == File then Paths.TrimSuffix(name, ".md") else name
  {
    var e := EntryName(name, kind);
    assert Paths.NoSlash(e) by {
      forall i | 0 <= i < |e| ensures e[i] != '/' {
        if i < |name| {
          assert e[i] == name[i];
        }
      }
    }
    Paths.BaseOfJoin(dir, e);
    if kind == File && !Paths.HasSuffix(name, ".md") {
      assert Paths.TrimSuffix(e, ".md") == name;
    }
  }

  /** The folder CreateNode creates in: a file stands for its parent. */
  function Target(folder: Node): Node?
  {
    if folder.kind == File then folder.parent else folder
  }

  /** The disk call CreateNode makes for a new entry at `path`. */
  function CreateStep(e: Gateway.Entries, path: string, kind: Kind, os: Gateway.OsCall): Gateway.Step
  {
    if kind == File then Gateway.CreateFileStep(e, path, [], os) else Gateway.CreateFolderStep(e, path, os)
  }

  datatype MouseButton = LeftButton | RightButton | MiddleButton | WheelUp | WheelDown | NoButton
  datatype MouseAction = Press | Release | Motion

  /** NewFsTree: an expanded root folder at `rootPath`, filled by the filtering walk,
      with its first child selected when it has one, then numbered. */
  method NewFsTree(rootPath: string, startOffset: int, dirs: Listing, disk: Gateway.Disk) returns (t: FsTree)
    requires Named(dirs)
    ensures fresh(t) && t.Valid() && t.Synced()
    ensures t.root.kind == Folder && t.root.path == rootPath && t.root.expanded
    ensures t.startOffset == startOffset && t.disk == disk
    ensures Matches(t.root, rootPath, Expected(dirs, rootPath, true))
    ensures t.selected == (if t.root.children != [] then t.root.children[0] else null)
    ensures t.hovered == null && t.width == 0 && t.height == 0 && t.viewStart == 0 && t.viewEnd == 0
  {
    var r, S, A, B := PlantSorted(dirs, rootPath);
    t := new FsTree(r, startOffset, disk, S, A, B);
    t.BuildLines();
  }

  /** NewFsTree of the main-package copy: the same, filled by the plain walk, whose error
      it ignores. The root keeps the children hung before the first error. */
  method NewFsTreePlain(rootPath: string, startOffset: int, dirs: Listing, disk: Gateway.Disk) returns (t: FsTree)
    requires Named(dirs)
    ensures fresh(t) && t.Valid() && t.Synced()
    ensures t.root.kind == Folder && t.root.path == rootPath && t.root.expanded
    ensures t.startOffset == startOffset && t.disk == disk
    ensures rootPath !in dirs ==> t.root.children == []
    ensures var plan := Expected(dirs, rootPath, false);
      |t.root.children| <= |plan| && Matches(t.root, rootPath, plan[..|t.root.children|])
    ensures Readable(dirs, rootPath) ==> Matches(t.root, rootPath, Expected(dirs, rootPath, false))
    ensures t.selected == (if t.root.children != [] then t.root.children[0] else null)
    ensures t.hovered == null && t.width == 0 && t.height == 0 && t.viewStart == 0 && t.viewEnd == 0
  {
    var r, S, A, B := PlantPlain(dirs, rootPath);
    t := new FsTree(r, startOffset, disk, S, A, B);
    t.BuildLines();
  }

  class FsTree {
    const root: Node
    var selected: Node?
    var hovered: Node?
    var lines: map<int, Node>
    var totalLines: int
    var width: int
    var height: int
    var viewStart: int
    var viewEnd: int
    const startOffset: int
    const disk: Gateway.Disk
    ghost var Repr: set<Node>
    ghost var Attached: set<Node>
    ghost var maxDepth: nat

    /** The tree literal of NewFsTree around a root the walk has filled: its first child
        is selected when it has one; nothing is numbered yet. */
    constructor (r: Node, startOffset: int, disk: Gateway.Disk, ghost S: set<Node>, ghost A: set<Node>, ghost B: nat)
      requires Shaped(r, S, A, B) && r in S
      requires forall n | n in S :: n.prev == null && n.next == null
      ensures Valid() && root == r && Repr == S
      ensures this.startOffset == startOffset && this.disk == disk
      ensures selected == (if r.children != [] then r.children[0] else null)
      ensures hovered == null && width == 0 && height == 0 && viewStart == 0 && viewEnd == 0
    {
      this.disk := disk;
      this.startOffset := startOffset;
      root := r;
      Repr, Attached, maxDepth := S, A, B;
      selected := if r.children != [] then r.children[0] else null;
      hovered := null;
      lines := map[];
      width, height, viewStart, viewEnd := 0, 0, 0, 0;
    }

    /** The structural invariant of the nodes (caches excluded). */
    ghost predicate Shape()
      reads this`Repr, this`Attached, this`maxDepth, Repr`children
    {
      Shaped(root, Repr, Attached, maxDepth)
    }

    /** The structure, plus every reference the tree holds stays among its nodes. */
    ghost predicate Valid()
      reads this`Repr, this`Attached, this`maxDepth, Repr`children
      reads this`selected, this`hovered, this`lines, Repr`prev, Repr`next
    {
      && Shape()
      && (selected == null || selected in Repr)
      && (hovered == null || hovered in Repr)
      && (forall k | k in lines :: lines[k] in Repr)
      && (forall n | n in Repr :: (n.prev == null || n.prev in Repr) && (n.next == null || n.next in Repr))
    }

    /** The root's visible descendants in pre-order; the root itself is not on it. */
    ghost function Visible(): seq<Node>
      reads this`Repr, this`Attached, this`maxDepth, Repr`children
      reads Repr`expanded
      requires Shape()
    {
      Below(Repr, maxDepth, root)
    }

    /** The caches agree with the visible sequence: the state BuildLines leaves. */
    ghost predicate Synced()
      reads this`Repr, this`Attached, this`maxDepth, Repr`children
      reads Repr`expanded, Repr`line, Repr`prev, Repr`next, this`lines, this`totalLines
      requires Shape()
    {
      var C := Visible();
      var N := Nums(0, Gaps(C));
      && root.line == -1
      && (forall k | 0 <= k < |C| :: C[k].line == N[k])
      && (forall k | 0 <= k < |C| :: C[k].prev == PrevOf(C, k) && C[k].next == NextOf(C, k))
      && lines == map[-1 := root] + LinesOf(0, Gaps(C), C)
      && totalLines == EndLine(0, Gaps(C))
    }

    /** Synced, from the facts about a sequence known to be the visible one. */
    lemma {:induction false} SyncedFrom(C: seq<Node>)
      requires Shape() && C == Visible()
      requires root.line == -1
      requires forall k | 0 <= k < |C| :: C[k].line == Nums(0, Gaps(C))[k]
      requires forall k | 0 <= k < |C| :: C[k].prev == PrevOf(C, k) && C[k].next == NextOf(C, k)
      requires lines == map[-1 := root] + LinesOf(0, Gaps(C), C)
      requires totalLines == EndLine(0, Gaps(C))
      ensures Synced()
    {
    }

    /** buildLinesRec: number `node` and, if it is expanded, its children's subtrees.
        `v` is the visible subtree of `node`, as a value. */
    method BuildLinesRec(node: Node, depth: nat, currentLine: int, flat: seq<Node>, ghost v: View)
      returns (line: int, flat': seq<Node>)
      requires Mirrors(Repr, v) && Layered(v) && Distinct(Flat(v))
      requires v.node == node && depth == node.depth
      modifies this`lines, NodesIn(Flat(v))`line
      ensures flat' == flat + Flat(v)
      ensures line == EndLine(currentLine, Gaps(Flat(v)))
      ensures lines == Store(old(lines), currentLine, Gaps(Flat(v)), Flat(v))
      ensures forall k | 0 <= k < |Flat(v)| :: Flat(v)[k].line == Nums(currentLine, Gaps(Flat(v)))[k]
      decreases v, 2
    {
      // a folder directly under the root gets a blank line above it, except at line 0
      line := Place(currentLine, node.kind == Folder && depth == 1);
      ghost var here := line;
      lines := lines[line := node];
      node.line := line;
      flat' := flat + [node];
      line := line + 1;
      NumberHead(v, currentLine, old(lines));
      DistinctHead(node, FlatKids(v.kids));
      AppendAssoc(flat, [node], FlatKids(v.kids));
      assert node !in NodesIn(FlatKids(v.kids));
      if node.expanded {
        line, flat' := BuildChildLines(node, depth, line, flat', v);
      }
      assert node.line == here == Place(currentLine, TopFolder(v.node));
      HeadLines(v, currentLine);
    }

    /** The loop of buildLinesRec over the children of an expanded node. */
    method BuildChildLines(node: Node, depth: nat, currentLine: int, flat: seq<Node>, ghost v: View)
      returns (line: int, flat': seq<Node>)
      requires Mirrors(Repr, v) && Layered(v) && Distinct(FlatKids(v.kids))
      requires v.node == node && depth == node.depth && node.expanded
      modifies this`lines, NodesIn(FlatKids(v.kids))`line
      ensures flat' == flat + FlatKids(v.kids)
      ensures line == EndLine(currentLine, Gaps(FlatKids(v.kids)))
      ensures lines == Store(old(lines), currentLine, Gaps(FlatKids(v.kids)), FlatKids(v.kids))
      ensures forall k | 0 <= k < |FlatKids(v.kids)| ::
        FlatKids(v.kids)[k].line == Nums(currentLine, Gaps(FlatKids(v.kids)))[k]
      decreases v, 1
    {
      ghost var ks := v.kids;
      assert ks[..0] == [];
      line, flat' := currentLine, flat;
      var i := 0;
      while i < |node.children|
        invariant 0 <= i <= |ks| == |node.children|
        invariant flat' == flat + FlatKids(ks[..i])
        invariant line == EndLine(currentLine, Gaps(FlatKids(ks[..i])))
        invariant lines == Store(old(lines), currentLine, Gaps(FlatKids(ks[..i])), FlatKids(ks[..i]))
        invariant forall k | 0 <= k < |FlatKids(ks[..i])| ::
          FlatKids(ks[..i])[k].line == Nums(currentLine, Gaps(FlatKids(ks[..i])))[k]
      {
        FlatKidsSplit(ks, i);
        line, flat' := ChildLine(node, depth, i, currentLine, line, flat, flat', v, old(lines));
        i := i + 1;
      }
      assert ks[..i] == ks;
    }

    /** One turn of that loop: number the subtree of child `i` after the blocks of the
        children before it. `m0` is the line map the loop started from. */
    method ChildLine(node: Node, depth: nat, i: nat, currentLine: int, line: int, flat0: seq<Node>, flat: seq<Node>,
                     ghost v: View, ghost m0: map<int, Node>)
      returns (line': int, flat': seq<Node>)
      requires Mirrors(Repr, v) && Layered(v) && Distinct(FlatKids(v.kids))
      requires v.node == node && depth == node.depth && node.expanded && i < |v.kids|
      requires flat == flat0 + FlatKids(v.kids[..i])
      requires line == EndLine(currentLine, Gaps(FlatKids(v.kids[..i])))
      requires lines == Store(m0, currentLine, Gaps(FlatKids(v.kids[..i])), FlatKids(v.kids[..i]))
      requires forall k | 0 <= k < |FlatKids(v.kids[..i])| ::
        FlatKids(v.kids[..i])[k].line == Nums(currentLine, Gaps(FlatKids(v.kids[..i])))[k]
      modifies this`lines, NodesIn(Flat(v.kids[i]))`line
      ensures flat' == flat0 + FlatKids(v.kids[..i + 1])
      ensures line' == EndLine(currentLine, Gaps(FlatKids(v.kids[..i + 1])))
      ensures lines == Store(m0, currentLine, Gaps(FlatKids(v.kids[..i + 1])), FlatKids(v.kids[..i + 1]))
      ensures var R := FlatKids(v.kids[..i + 1]);
        forall k | 0 <= k < |R| :: R[k].line == Nums(currentLine, Gaps(R))[k]
      decreases v, 0
    {
      ghost var ks := v.kids;
      ghost var P, Q := FlatKids(ks[..i]), Flat(ks[i]);
      KidsWithin(Repr, v);
      KidsStepNumbering(ks, i, currentLine, m0, flat0);
      FlatKidsSplit(ks, i);
      NodesApart(P, Q, FlatKids(ks[i + 1..]));
      ViewsKidsHas(ks, i);
      line', flat' := BuildLinesRec(node.children[i], depth + 1, line, flat, ks[i]);
      forall k | 0 <= k < |P| ensures P[k].line == Nums(currentLine, Gaps(P))[k] {
        assert P[k] == FlatKids(ks)[k];
      }
      StepLines(P, Q, currentLine);
    }

    /** The first half of BuildLines: clear the line map and walk from the root, which
        takes line -1, over the visible nodes `C`. */
    method NumberFromRoot(ghost C: seq<Node>) returns (line: int, flatTree: seq<Node>)
      requires Shape() && C == Visible()
      modifies this`lines, Repr`line
      ensures flatTree == [root] + C
      ensures line == EndLine(0, Gaps(C))
      ensures lines == map[-1 := root] + LinesOf(0, Gaps(C), C)
      ensures root.line == -1
      ensures forall k | 0 <= k < |C| :: C[k].line == Nums(0, Gaps(C))[k]
      ensures forall n | n in Repr && n !in C && n != root :: n.line == old(n.line)
    {
      ghost var v := Snap(Repr, maxDepth, root);
      RootSnap(root, Repr, Attached, maxDepth);
      RootNumbering(v);
      MirrorsWithin(Repr, v);
      lines := map[];
      line, flatTree := BuildLinesRec(root, 0, -1, [], v);
      RootLines(v);
    }

    /** The second half of BuildLines: link the visible nodes `C` in order, after the
        walk has numbered them and rebuilt the line map. */
    method LinkVisible(line: int, flatTree: seq<Node>, ghost C: seq<Node>)
      requires Valid() && C == Visible() && flatTree == [root] + C
      requires root.line == -1
      requires forall k | 0 <= k < |C| :: C[k].line == Nums(0, Gaps(C))[k]
      requires lines == map[-1 := root] + LinesOf(0, Gaps(C), C)
      requires line == EndLine(0, Gaps(C))
      modifies this`totalLines, Repr`prev, Repr`next
      ensures Valid() && Synced()
      ensures forall n | n in Repr && n !in C :: n.prev == old(n.prev) && n.next == old(n.next)
    {
      BelowDistinct(root, Repr, Attached, maxDepth);
      LinkFlat(flatTree, C, Repr);
      totalLines := line;
      SyncedFrom(C);
    }

    /** BuildLines: rebuild the line map from -1 (the root) and link the visible nodes. */
    method BuildLines()
      requires Valid()
      modifies this`lines, this`totalLines, Repr`line, Repr`prev, Repr`next
      ensures Valid() && Synced()
      ensures forall n | n in Repr && n !in Visible() && n != root ::
        n.line == old(n.line) && n.prev == old(n.prev) && n.next == old(n.next)
    {
      ghost var C := Visible();
      LinesOfValues(0, Gaps(C), C);
      var line, flatTree := NumberFromRoot(C);
      LinkVisible(line, flatTree, C);
    }

    /** ToggleExpand: flip a folder's expanded flag and rebuild. */
    method ToggleExpand(node: Node?) returns (err: Outcome)
      requires Valid() && (node == null || node in Repr)
      modifies Repr`expanded, this`lines, this`totalLines, Repr`line, Repr`prev, Repr`next
      ensures node == null ==> err == Fail(NilNode)
      ensures node != null && node.kind != Folder ==> err == Fail(NotFolder)
      ensures err.Fail? ==> unchanged(Repr) && unchanged(this)
      ensures node != null && node.kind == Folder ==> err == Ok
      ensures err == Ok ==> node != null && node.expanded == !old(node.expanded)
      ensures err == Ok ==> forall n | n in Repr && n != node :: n.expanded == old(n.expanded)
      ensures Valid() && (err == Ok ==> Synced())
    {
      if node == null {
        return Fail(NilNode);
      }
      if node.kind != Folder {
        return Fail(NotFolder);
      }
      node.expanded := !node.expanded;
      BuildLines();
      err := Ok;
    }

    /** DeleteNode: refuse a nil or parentless node, delete its path on disk, then unhook it
        from its parent, select its chain predecessor (or the root's first child) and rebuild. */
    method DeleteNode(node: Node?, os: Gateway.OsCall) returns (err: Outcome)
      requires Valid() && (node == null || node in Repr)
      modifies disk, this`selected, this`Attached, Repr`children
      modifies this`lines, this`totalLines, Repr`line, Repr`prev, Repr`next
      ensures node == null ==> err == Fail(NilNode)
      ensures node != null && node.parent == null ==> err == Fail(NoParent)
      ensures node != null && node.parent != null ==>
        Gateway.Step(err, disk.entries) == Gateway.DeletePathStep(old(disk.entries), node.path, os)
      ensures node == null || node.parent == null ==> disk.entries == old(disk.entries)
      ensures err.Fail? ==> unchanged(this) && unchanged(Repr)
      ensures err == Ok ==> node != null && node.parent != null
      ensures err == Ok ==> node.parent.children == RemoveFirst<Node>(old(node.parent.children), node)
      ensures err == Ok ==> forall n | n in Repr && n != node.parent :: n.children == old(n.children)
      ensures err == Ok ==> Attached == Remaining(Repr, old(Attached), node)
      ensures err == Ok ==> selected == (if old(node.prev) != null then old(node.prev)
        else if root.children != [] then root.children[0] else null)
      ensures Valid() && (err == Ok ==> Synced())
      ensures err == Ok && old(Synced()) && node in old(Visible()) ==>
        selected == null || (selected in Attached && !IsDesc(Repr, selected, node))
    {
      if node == null {
        return Fail(NilNode);
      }
      var parent := node.parent;
      if parent == null {
        return Fail(NoParent);
      }
      ghost var C := Visible();
      ghost var synced := Synced();
      err := disk.DeletePath(node.path, os);
      if err.Fail? {
        return;
      }
      assert Valid() && C == Visible() && (synced ==> Synced());
      RemoveNode(node, parent, C, synced);
    }

    /** The in-memory half of a DeleteNode whose disk call succeeded. */
    method RemoveNode(node: Node, parent: Node, ghost C: seq<Node>, ghost synced: bool)
      requires Valid() && node in Repr && node.parent == parent
      requires C == Visible() && (synced ==> Synced())
      modifies this`selected, this`Attached, parent`children
      modifies this`lines, this`totalLines, Repr`line, Repr`prev, Repr`next
      ensures parent.children == RemoveFirst(old(parent.children), node)
      ensures Attached == Remaining(Repr, old(Attached), node)
      ensures selected == (if old(node.prev) != null then old(node.prev)
        else if root.children != [] then root.children[0] else null)
      ensures Valid() && Synced()
      ensures synced && node in C ==> selected == null || selected in Attached
    {
      var prev := node.prev;
      if synced && node in C {
        var k :| 0 <= k < |C| && C[k] == node;
        if k > 0 {
          PrevOutside(root, Repr, Attached, maxDepth, C, k);
        }
      }
      Unhook(parent, node);
      SelectAfterDelete(prev);
      BuildLines();
    }

    /** Take `node` out of its parent's child list; its subtree is no longer attached. */
    method Unhook(parent: Node, node: Node)
      requires Valid() && node in Repr && node.parent == parent
      modifies parent`children, this`Attached
      ensures parent.children == RemoveFirst(old(parent.children), node)
      ensures Attached == Remaining(Repr, old(Attached), node)
      ensures Valid()
    {
      DetachChild(parent, node, root, Repr, Attached, maxDepth);
      Attached := Remaining(Repr, Attached, node);
    }

    /** The selection after a delete: the deleted node's predecessor, or else the root's
        first child, or else nothing. */
    method SelectAfterDelete(prev: Node?)
      requires Valid() && (prev == null || prev in Repr)
      modifies this`selected
      ensures selected == if prev != null then prev else if root.children != [] then root.children[0] else null
      ensures Valid()
    {
      selected := prev;
      if selected == null && |root.children| > 0 {
        selected := root.children[0];
      }
    }

    /** CreateNode: create a file or folder named `name` in `folder` (in its parent when
        `folder` is a file). The target folder is expanded before any other check, so a
        rejected name or a failed disk call still leaves it expanded, without a rebuild. */
    method CreateNode(folder: Node?, name: string, kind: Kind, os: Gateway.OsCall) returns (err: Outcome)
      requires Valid() && (folder == null || folder in Repr)
      modifies disk, Repr`expanded, Repr`children, this`Repr, this`Attached, this`maxDepth, this`selected
      modifies this`lines, this`totalLines, Repr`line, Repr`prev, Repr`next
      ensures folder == null ==> err == Fail(NilNode)
      ensures folder != null ==> Target(folder) != null && Target(folder) in old(Repr)
      ensures folder != null && Target(folder).kind != Folder ==> err == Fail(NotFolder)
      ensures folder == null || Target(folder).kind != Folder ==>
        unchanged(this) && unchanged(Repr) && unchanged(disk)
      ensures folder != null && Target(folder).kind == Folder ==> Target(folder).expanded
      ensures forall n | n in old(Repr) && (folder == null || n != Target(folder)) :: n.expanded == old(n.expanded)
      ensures folder != null && Target(folder).kind == Folder && name == "" ==>
        err == Fail(EmptyName) && unchanged(disk)
      ensures folder != null && Target(folder).kind == Folder && name != "" ==>
        Gateway.Step(err, disk.entries) ==
          CreateStep(old(disk.entries), Paths.Join(Target(folder).path, EntryName(name, kind)), kind, os)
      ensures err.Fail? ==> Repr == old(Repr) && Attached == old(Attached) && selected == old(selected)
      ensures err.Fail? ==> forall n | n in Repr :: n.children == old(n.children)
      ensures err.Fail? ==> lines == old(lines) && totalLines == old(totalLines)
      ensures err.Fail? ==> forall n | n in Repr :: n.line == old(n.line) && n.prev == old(n.prev) && n.next == old(n.next)
      ensures err == Ok ==> folder != null && Created(Target(folder), old(Target(folder).children), Paths.Join(Target(folder).path, EntryName(name, kind)), kind)
      ensures err == Ok ==> selected !in old(Repr) && Repr == old(Repr) + {selected}
      ensures err == Ok ==> Attached == Grown(old(Attached), Target(folder), selected)
      ensures err == Ok ==> forall n | n in old(Repr) && n != Target(folder) :: n.children == old(n.children)
      ensures Valid() && (err == Ok ==> Synced())
    {
      if folder == null {
        return Fail(NilNode);
      }
      assert folder.kind == File ==> folder != root && folder.parent != null;
      var target := Target(folder);
      if target.kind != Folder {
        return Fail(NotFolder);
      } else if !target.expanded {
        target.expanded := true;
      }
      err := CreateIn(target, name, kind, os);
    }

    /** The new node is selected and sits in `target`'s children where CreateNode puts it:
        first for a file, last for a folder. */
    ghost predicate Created(target: Node, before: seq<Node>, path: string, kind: Kind)
      reads this`selected, target`children, selected
    {
      && selected != null && selected.kind == kind && selected.path == path && selected.parent == target
      && selected.expanded == (kind == Folder) && selected.children == []
      && target.children == if kind == File then [selected] + before else before + [selected]
    }

    /** The part of CreateNode after the target folder is settled: check the name, make
        the entry on disk, then hang the node. */
    method CreateIn(target: Node, name: string, kind: Kind, os: Gateway.OsCall) returns (err: Outcome)
      requires Valid() && target in Repr && target.kind == Folder
      modifies disk, target`children, this`Repr, this`Attached, this`maxDepth, this`selected
      modifies this`lines, this`totalLines, Repr`line, Repr`prev, Repr`next
      ensures name == "" ==> err == Fail(EmptyName) && unchanged(disk)
      ensures name != "" ==>
        Gateway.Step(err, disk.entries) == CreateStep(old(disk.entries), Paths.Join(target.path, EntryName(name, kind)), kind, os)
      ensures err.Fail? ==> unchanged(this) && unchanged(Repr)
      ensures err == Ok ==> Created(target, old(target.children), Paths.Join(target.path, EntryName(name, kind)), kind)
      ensures err == Ok ==> selected !in old(Repr) && Repr == old(Repr) + {selected}
      ensures err == Ok ==> Attached == Grown(old(Attached), target, selected)
      ensures Valid() && (err == Ok ==> Synced())
    {
      if name == "" {
        return Fail(EmptyName);
      }
      var path := Paths.Join(target.path, EntryName(name, kind));
      if kind == File {
        err := disk.CreateFile(path, [], os);
      } else {
        err := disk.CreateFolder(path, os);
      }
      if err.Fail? {
        return;
      }
      AddNode(target, kind, path);
    }

    /** Make the node, hang it, select it and rebuild. */
    method AddNode(target: Node, kind: Kind, path: string)
      requires Valid() && target in Repr && target.kind == Folder
      modifies target`children, this`Repr, this`Attached, this`maxDepth, this`selected
      modifies this`lines, this`totalLines, Repr`line, Repr`prev, Repr`next
      ensures Created(target, old(target.children), path, kind)
      ensures selected !in old(Repr) && Repr == old(Repr) + {selected}
      ensures Attached == Grown(old(Attached), target, selected)
      ensures Valid() && Synced()
    {
      var c := new Node(kind, path, target, kind == Folder, target.depth + 1);
      Hang(target, c);
      selected := c;
      BuildLines();
    }

    /** Add the new node `c` to the footprint and to `target`'s children. */
    method Hang(target: Node, c: Node)
      requires Valid() && target in Repr && target.kind == Folder
      requires c !in Repr && c.parent == target && c.children == [] && c.depth == target.depth + 1
      requires c.prev == null && c.next == null
      modifies target`children, this`Repr, this`Attached, this`maxDepth
      ensures target.children == if c.kind == File then [c] + old(target.children) else old(target.children) + [c]
      ensures Repr == old(Repr) + {c} && Attached == Grown(old(Attached), target, c)
      ensures Valid()
    {
      if c.kind == File {
        AttachFirst(target, c, root, Repr, Attached, maxDepth);
      } else {
        AttachLast(target, c, root, Repr, Attached, maxDepth);
      }
      Repr, Attached, maxDepth := Repr + {c}, Grown(Attached, target, c), Deeper(maxDepth, c.depth);
    }

    /** The node the chain steps to from the `k`-th visible node: the next or previous
        visible node, or the node itself at either end. */
    ghost function StepTarget(C: seq<Node>, k: nat, delta: int): Node
      requires k < |C|
    {
      if delta == 1 then (if k + 1 < |C| then C[k + 1] else C[k])
      else (if k > 0 then C[k - 1] else C[k])
    }

    /** move: step the selection along the chain by -1 or 1, staying put at either end. */
    method Move(delta: int) returns (err: Outcome)
      requires Valid()
      modifies this`selected
      ensures old(selected) == null ==> err == Fail(NoSelection)
      ensures old(selected) != null && delta != -1 && delta != 1 ==> err == Fail(BadDelta)
      ensures err.Fail? ==> selected == old(selected)
      ensures old(selected) != null && (delta == -1 || delta == 1) ==> err == Ok
      ensures err == Ok ==> old(selected) != null && var target := if delta == 1 then old(selected).next else old(selected).prev;
        selected == if target != null then target else old(selected)
      ensures Valid()
      ensures err == Ok && Synced() ==> forall k | 0 <= k < |Visible()| && old(selected) == Visible()[k] ::
        selected == StepTarget(Visible(), k, delta)
    {
      var sel := selected;
      if sel == null {
        return Fail(NoSelection);
      }
      if delta != -1 && delta != 1 {
        return Fail(BadDelta);
      }
      var next: Node?;
      if delta == 1 {
        next := sel.next;
      } else {
        next := sel.prev;
      }
      if next != null {
        selected := next;
      }
      err := Ok;
    }

    /** MoveUp: move(-1). */
    method MoveUp() returns (err: Outcome)
      requires Valid()
      modifies this`selected
      ensures err == (if old(selected) == null then Fail(NoSelection) else Ok)
      ensures err == Ok ==> selected == if old(selected).prev != null then old(selected).prev else old(selected)
      ensures err.Fail? ==> selected == old(selected)
      ensures Valid()
      ensures err == Ok && Synced() ==> forall k | 0 <= k < |Visible()| && old(selected) == Visible()[k] ::
        selected == StepTarget(Visible(), k, -1)
    {
      err := Move(-1);
    }

    /** MoveDown: move(1). */
    method MoveDown() returns (err: Outcome)
      requires Valid()
      modifies this`selected
      ensures err == (if old(selected) == null then Fail(NoSelection) else Ok)
      ensures err == Ok ==> selected == if old(selected).next != null then old(selected).next else old(selected)
      ensures err.Fail? ==> selected == old(selected)
      ensures Valid()
      ensures err == Ok && Synced() ==> forall k | 0 <= k < |Visible()| && old(selected) == Visible()[k] ::
        selected == StepTarget(Visible(), k, 1)
    {
      err := Move(1);
    }

    /** The window getViewportBounds computes for the current selection. */
    function Frame(): (r: (int, int))
      reads this`selected, this`height, this`totalLines, selected
    {
      ViewportBounds(selected != null, if selected != null then selected.line else 0, height, totalLines)
    }

    /** The viewport recomputation that ends every Update. */
    method Reframe()
      requires Valid()
      modifies this`viewStart, this`viewEnd
      ensures Valid()
      ensures (viewStart, viewEnd) == Frame()
      ensures Synced() == old(Synced())
    {
      var bounds := ViewportBounds(selected != null, if selected != null then selected.line else 0, height, totalLines);
      viewStart, viewEnd := bounds.0, bounds.1;
    }

    /** Update on a WindowSizeMsg: take the new size, then recompute the viewport. */
    method Resize(w: int, h: int)
      requires Valid()
      modifies this`width, this`height, this`viewStart, this`viewEnd
      ensures Valid()
      ensures width == w && height == h
      ensures (viewStart, viewEnd) == Frame()
    {
      width, height := w, h;
      Reframe();
    }

    /** Update on a MouseMsg: a wheel press moves the selection; then, unless the mouse
        is right of the tree, the node on the pointed line (the line map read at the
        mouse row shifted by the viewport) becomes the hovered one, and a left press on
        it selects it and toggles it when it is a folder; the viewport is recomputed last.
        The row shift can reach line -1, where the root is stored. */
    method Mouse(x: int, y: int, button: MouseButton, action: MouseAction)
      requires Valid()
      modifies this`selected, this`hovered, this`viewStart, this`viewEnd
      modifies Repr`expanded, this`lines, this`totalLines, Repr`line, Repr`prev, Repr`next
      ensures Valid()
      ensures (viewStart, viewEnd) == Frame()
      ensures action == Press && button == WheelUp ==>
        selected == (if old(selected) != null && old(selected.prev) != null then old(selected.prev) else old(selected))
      ensures action == Press && button == WheelDown ==>
        selected == (if old(selected) != null && old(selected.next) != null then old(selected.next) else old(selected))
      ensures var row := y + old(viewStart) - startOffset;
        hovered == (if x >= width then old(hovered) else if row in old(lines) then old(lines)[row] else null)
      ensures var row := y + old(viewStart) - startOffset;
        old(Clicked(x, row, button, action)) ==> selected == old(lines)[row]
      ensures var row := y + old(viewStart) - startOffset;
        !(action == Press && (button == WheelUp || button == WheelDown)) && !old(Clicked(x, row, button, action)) ==>
          selected == old(selected)
      ensures var row := y + old(viewStart) - startOffset;
        forall n | n in Repr ::
          n.expanded == (if old(Clicked(x, row, button, action)) && n == old(lines)[row] && n.kind == Folder
                         then !old(n.expanded) else old(n.expanded))
      ensures var row := y + old(viewStart) - startOffset;
        old(Clicked(x, row, button, action)) && old(lines)[row].kind == Folder ==> Synced()
      ensures var row := y + old(viewStart) - startOffset;
        !(old(Clicked(x, row, button, action)) && old(lines)[row].kind == Folder) ==>
          lines == old(lines) && totalLines == old(totalLines) &&
          forall n | n in Repr :: n.line == old(n.line) && n.prev == old(n.prev) && n.next == old(n.next)
      ensures old(Synced()) ==> Synced()
    {
      var row := y + viewStart - startOffset;
      // a wheel press is not a left press, so at most one of the two steps acts
      if action == Press && (button == WheelUp || button == WheelDown) {
        Wheel(button, action);
        PointedFramed(x, row, button, action);
      } else {
        PointedFramed(x, row, button, action);
      }
    }

    /** The rest of the mouse handler once the wheel has moved the selection. */
    method PointedFramed(x: int, row: int, button: MouseButton, action: MouseAction)
      requires Valid()
      modifies this`selected, this`hovered, this`viewStart, this`viewEnd
      modifies Repr`expanded, this`lines, this`totalLines, Repr`line, Repr`prev, Repr`next
      ensures Valid()
      ensures (viewStart, viewEnd) == Frame()
      ensures hovered == if x >= width then old(hovered) else if row in old(lines) then old(lines)[row] else null
      ensures selected == if old(Clicked(x, row, button, action)) then old(lines)[row] else old(selected)
      ensures forall n | n in Repr ::
        n.expanded == (if old(Clicked(x, row, button, action)) && n == old(lines)[row] && n.kind == Folder
                       then !old(n.expanded) else old(n.expanded))
      ensures old(Clicked(x, row, button, action)) && old(lines)[row].kind == Folder ==> Synced()
      ensures !(old(Clicked(x, row, button, action)) && old(lines)[row].kind == Folder) ==>
        lines == old(lines) && totalLines == old(totalLines) &&
        forall n | n in Repr :: n.line == old(n.line) && n.prev == old(n.prev) && n.next == old(n.next)
      ensures old(Synced()) ==> Synced()
    {
      Pointed(x, row, button, action);
      Reframe();
    }

    /** The wheel half of the mouse handler: a press of the wheel moves the selection. */
    method Wheel(button: MouseButton, action: MouseAction)
      requires Valid()
      modifies this`selected
      ensures Valid()
      ensures selected ==
        if action == Press && button == WheelUp && old(selected) != null && old(selected).prev != null then old(selected).prev
        else if action == Press && button == WheelDown && old(selected) != null && old(selected).next != null then old(selected).next
        else old(selected)
      ensures hovered == old(hovered) && lines == old(lines) && totalLines == old(totalLines)
      ensures Synced() == old(Synced())
    {
      if action == Press && button == WheelUp {
        var _ := MoveUp();
      } else if action == Press && button == WheelDown {
        var _ := MoveDown();
      }
    }

    /** Hover and click, skipped when the mouse is right of the tree. */
    method Pointed(x: int, row: int, button: MouseButton, action: MouseAction)
      requires Valid()
      modifies this`selected, this`hovered
      modifies Repr`expanded, this`lines, this`totalLines, Repr`line, Repr`prev, Repr`next
      ensures Valid()
      ensures hovered == if x >= width then old(hovered) else if row in old(lines) then old(lines)[row] else null
      ensures selected == if old(Clicked(x, row, button, action)) then old(lines)[row] else old(selected)
      ensures forall n | n in Repr ::
        n.expanded == (if old(Clicked(x, row, button, action)) && n == old(lines)[row] && n.kind == Folder
                       then !old(n.expanded) else old(n.expanded))
      ensures old(Clicked(x, row, button, action)) && old(lines)[row].kind == Folder ==> Synced()
      ensures !(old(Clicked(x, row, button, action)) && old(lines)[row].kind == Folder) ==>
        lines == old(lines) && totalLines == old(totalLines) &&
        forall n | n in Repr :: n.line == old(n.line) && n.prev == old(n.prev) && n.next == old(n.next)
      ensures old(Synced()) ==> Synced()
    {
      if x < width {
        Point(row, button, action);
      }
    }

    /** A left press right of nothing, on a row the line map holds. */
    ghost predicate Clicked(x: int, row: int, button: MouseButton, action: MouseAction)
      reads this`width, this`lines
    {
      x < width && button == LeftButton && action == Press && row in lines
    }

    /** The hover and click half of the mouse handler, at a row already shifted. */
    method Point(row: int, button: MouseButton, action: MouseAction)
      requires Valid()
      modifies this`selected, this`hovered
      modifies Repr`expanded, this`lines, this`totalLines, Repr`line, Repr`prev, Repr`next
      ensures Valid() && (button == LeftButton && action == Press && row in old(lines) && old(lines)[row].kind == Folder ==> Synced())
      ensures hovered == if row in old(lines) then old(lines)[row] else null
      ensures selected == if button == LeftButton && action == Press && row in old(lines) then old(lines)[row] else old(selected)
      ensures forall n | n in Repr ::
        n.expanded == (if button == LeftButton && action == Press && row in old(lines) && n == old(lines)[row] && n.kind == Folder
                       then !old(n.expanded) else old(n.expanded))
      ensures !(button == LeftButton && action == Press && row in old(lines) && old(lines)[row].kind == Folder) ==>
        lines == old(lines) && totalLines == old(totalLines) &&
        forall n | n in Repr :: n.line == old(n.line) && n.prev == old(n.prev) && n.next == old(n.next)
      ensures old(Synced()) ==> Synced()
    {
      hovered := if row in lines then lines[row] else null;
      if button == LeftButton && action == Press && row in lines {
        Click(lines[row]);
      }
    }

    /** A left press on the node `n`: select it, and toggle it when it is a folder. */
    method Click(n: Node)
      requires Valid() && n in Repr
      modifies this`selected, Repr`expanded, this`lines, this`totalLines, Repr`line, Repr`prev, Repr`next
      ensures Valid() && (n.kind == Folder ==> Synced())
      ensures selected == n
      ensures forall m | m in Repr :: m.expanded == (if m == n && n.kind == Folder then !old(m.expanded) else old(m.expanded))
      ensures n.kind != Folder ==>
        lines == old(lines) && totalLines == old(totalLines) &&
        forall m | m in Repr :: m.line == old(m.line) && m.prev == old(m.prev) && m.next == old(m.next)
      ensures old(Synced()) ==> Synced()
    {
      selected := n;
      if n.kind == Folder {
        var _ := ToggleExpand(n);
      }
    }

    /** ToggleSelectedExpand: toggle the selected folder. */
    method ToggleSelectedExpand() returns (err: Outcome)
      requires Valid()
      modifies Repr`expanded, this`lines, this`totalLines, Repr`line, Repr`prev, Repr`next
      ensures selected == old(selected)
      ensures old(selected) == null ==> err == Fail(NoSelection)
      ensures old(selected) != null && old(selected).kind != Folder ==> err == Fail(NotFolder)
      ensures err.Fail? ==> unchanged(Repr) && unchanged(this)
      ensures old(selected) != null && old(selected).kind == Folder ==> err == Ok
      ensures err == Ok ==> selected.expanded == !old(selected.expanded)
      ensures err == Ok ==> forall n | n in Repr && n != selected :: n.expanded == old(n.expanded)
      ensures Valid() && (err == Ok ==> Synced())
    {
      if selected == null {
        return Fail(NoSelection);
      }
      if selected.kind != Folder {
        return Fail(NotFolder);
      }
      err := ToggleExpand(selected);
    }

    /** Toggling a folder twice restores its flag, the visible sequence and every cache
        the rebuild writes for the visible nodes. */
    method ToggleTwice(node: Node) returns (err1: Outcome, err2: Outcome)
      requires Valid() && Synced() && node in Repr && node.kind == Folder
      modifies Repr`expanded, this`lines, this`totalLines, Repr`line, Repr`prev, Repr`next
      ensures err1 == Ok && err2 == Ok
      ensures forall n | n in Repr :: n.expanded == old(n.expanded)
      ensures Valid() && Synced() && Visible() == old(Visible())
      ensures lines == old(lines) && totalLines == old(totalLines)
      ensures forall n | n in Visible() :: n.line == old(n.line) && n.prev == old(n.prev) && n.next == old(n.next)
    {
      ghost var C := Visible();
      err1 := ToggleExpand(node);
      err2 := ToggleExpand(node);
      assert C == Visible();
    }

    /** What a rebuilt tree promises, in terms of the visible sequence `C`: the map sends
        -1 to the root and each visible node's line to that node and has no other keys;
        lines start at 0 and rise by one, or by two before a folder directly under the
        root; the count is one past the last line (0 when nothing is visible); and
        following `next` from the first visible node, whose `prev` is nil, walks exactly
        the visible sequence and ends at a node whose `next` is nil. */
    lemma {:induction false} SyncedLayout(C: seq<Node>)
      requires Shape() && Synced() && C == Visible()
      ensures -1 in lines && lines[-1] == root
      ensures forall k | 0 <= k < |C| :: 0 <= C[k].line < totalLines && C[k].line in lines && lines[C[k].line] == C[k]
      ensures forall x | x in lines && x != -1 :: exists k :: 0 <= k < |C| && C[k].line == x
      ensures C != [] ==> C[0].line == 0
      ensures forall k | 0 <= k < |C| - 1 :: C[k + 1].line == C[k].line + (if TopFolder(C[k + 1]) then 2 else 1)
      ensures totalLines == if C == [] then 0 else C[|C| - 1].line + 1
      ensures C != [] ==> C[0].prev == null && C[|C| - 1].next == null && FollowNext(Repr, C[0], |C|) == C
    {
      NumberedMap(C, root, lines, totalLines);
      NumberedSteps(C, totalLines);
      if C != [] {
        BelowDistinct(root, Repr, Attached, maxDepth);
        ChainFromHead(Repr, C);
      }
    }
  }
}
