/** Building a tree from a directory listing: walkFileSystemAndBuildTree in its two
    forms. The listing is an input map from a directory path to the entries
    `os.ReadDir` returns for it, in order; a path that is not a key cannot be read. */
module TreeWalk {
  import opened Outcomes
  import opened TreeShape
  import opened TreeEdit
  import Paths
  import opened Slices

  datatype DirEntry = DirEntry(name: string, isDir: bool)
  type Listing = map<string, seq<DirEntry>>

  /** What the operating system guarantees of a listing: no entry has an empty name. */
  predicate Named(dirs: Listing) {
    forall p, i | p in dirs && 0 <= i < |dirs[p]| :: dirs[p][i].name != ""
  }

  /** The node a walk makes for one entry, as a value. */
  datatype Planned = Planned(kind: Kind, name: string, expanded: bool)

  /** Dot files and dot folders are skipped by the filtering walk. */
  predicate Hidden(e: DirEntry) {
    |e.name| > 0 && e.name[0] == '.'
  }

  /** The entries the filtering loop puts in `files`, in listing order. */
  function Files(es: seq<DirEntry>): seq<DirEntry>
  {
    if es == [] then []
    else Files(es[..|es| - 1]) + (if !Hidden(es[|es| - 1]) && !es[|es| - 1].isDir then [es[|es| - 1]] else [])
  }

  /** The entries the filtering loop puts in `folders`, in listing order. */
  function Folders(es: seq<DirEntry>): seq<DirEntry>
  {
    if es == [] then []
    else Folders(es[..|es| - 1]) + (if !Hidden(es[|es| - 1]) && es[|es| - 1].isDir then [es[|es| - 1]] else [])
  }

  function AsPlanned(es: seq<DirEntry>, kind: Kind, expanded: bool): (r: seq<Planned>)
    ensures |r| == |es|
    ensures forall i | 0 <= i < |es| :: r[i] == Planned(kind, es[i].name, expanded)
  {
    if es == [] then [] else [Planned(kind, es[0].name, expanded)] + AsPlanned(es[1..], kind, expanded)
  }

  /** The children the filtering walk gives a directory: the visible files, collapsed,
      then the visible folders, expanded. */
  function SortedPlan(es: seq<DirEntry>): seq<Planned>
  {
    AsPlanned(Files(es), File, false) + AsPlanned(Folders(es), Folder, true)
  }

  /** The children the plain walk gives a directory: one per entry, all collapsed. */
  function PlainPlan(es: seq<DirEntry>): (r: seq<Planned>)
    ensures |r| == |es|
    ensures forall i | 0 <= i < |es| ::
      r[i] == Planned(if es[i].isDir then Folder else File, es[i].name, false)
  {
    if es == [] then []
    else [Planned(if es[0].isDir then Folder else File, es[0].name, false)] + PlainPlan(es[1..])
  }

  /** The children a directory at `p` ends with: none when it cannot be read. */
  function Expected(dirs: Listing, p: string, sorted: bool): seq<Planned>
  {
    if p !in dirs then [] else if sorted then SortedPlan(dirs[p]) else PlainPlan(dirs[p])
  }

  /** `c` is the node made for `e` under `n`, whose directory path is `dir`. */
  ghost predicate Made(c: Node, n: Node, dir: string, e: Planned)
    reads c`expanded
  {
    c.kind == e.kind && c.path == Paths.Join(dir, e.name) && c.parent == n && c.expanded == e.expanded
  }

  /** The children of `n` are exactly the nodes made for `plan`, in order. */
  ghost predicate Matches(n: Node, dir: string, plan: seq<Planned>)
    reads n`children, n.children`expanded
  {
    |n.children| == |plan| && forall i | 0 <= i < |plan| :: Made(n.children[i], n, dir, plan[i])
  }

  /** A node is built as its listing says: a file has no children, a folder has the
      children its listing calls for. */
  ghost predicate Built(n: Node, dirs: Listing, sorted: bool)
    reads n`children, n.children`expanded
  {
    if n.kind == File then n.children == [] else Matches(n, n.path, Expected(dirs, n.path, sorted))
  }

  /** A node not yet on any line chain. */
  ghost predicate Unlinked(n: Node)
    reads n`prev, n`next
  {
    n.prev == null && n.next == null
  }

  /** A node the walk made is finished: built, and not yet on any line chain. */
  ghost predicate Done(n: Node, dirs: Listing, sorted: bool)
    reads n`children, n.children`expanded, n`prev, n`next
  {
    Unlinked(n) && Built(n, dirs, sorted)
  }

  /** Every folder the plain walk reaches from `p`, `p` included, can be listed: the
      walk then meets no error. */
  ghost predicate Readable(dirs: Listing, p: string)
    requires Named(dirs)
    decreases KeysFrom(dirs, p)
  {
    p in dirs &&
    forall i | 0 <= i < |dirs[p]| && dirs[p][i].isDir ::
      assert KeysFrom(dirs, Paths.Join(p, dirs[p][i].name)) < KeysFrom(dirs, p) by {
        assert p !in KeysFrom(dirs, Paths.Join(p, dirs[p][i].name));
      }
      Readable(dirs, Paths.Join(p, dirs[p][i].name))
  }

  /** A folder entry that cannot be walked makes its directory unreadable. */
  lemma UnreadableEntry(dirs: Listing, p: string, i: int)
    requires Named(dirs) && p in dirs && 0 <= i < |dirs[p]| && dirs[p][i].isDir
    requires !Readable(dirs, Paths.Join(p, dirs[p][i].name))
    ensures !Readable(dirs, p)
  {
  }

  /** The folder entries among the first `i` of the listing of `p` are readable. */
  ghost predicate ReadableBefore(dirs: Listing, p: string, i: int)
    requires Named(dirs) && p in dirs && 0 <= i <= |dirs[p]|
  {
    forall j | 0 <= j < i && dirs[p][j].isDir :: Readable(dirs, Paths.Join(p, dirs[p][j].name))
  }

  lemma ReadableBeforeStep(dirs: Listing, p: string, i: int)
    requires Named(dirs) && p in dirs && 0 <= i < |dirs[p]| && ReadableBefore(dirs, p, i)
    requires dirs[p][i].isDir ==> Readable(dirs, Paths.Join(p, dirs[p][i].name))
    ensures ReadableBefore(dirs, p, i + 1)
  {
  }

  /** A listed directory whose folder entries are all readable is readable. */
  lemma ReadableEntries(dirs: Listing, p: string)
    requires Named(dirs) && p in dirs && ReadableBefore(dirs, p, |dirs[p]|)
    ensures Readable(dirs, p)
  {
  }

  /** Extending the matched prefix of a plan by its next element. */
  lemma {:induction false} MatchesStep(n: Node, dir: string, plan: seq<Planned>, i: nat, e: Planned)
    requires i < |plan| && plan[i] == e && Matches(n, dir, plan[..i] + [e])
    ensures Matches(n, dir, plan[..i + 1])
  {
    assert plan[..i + 1] == plan[..i] + [plan[i]];
  }

  /** The listed paths not shorter than `p`: the walk's termination measure. */
  function KeysFrom(dirs: Listing, p: string): set<string>
  {
    set k | k in dirs && |k| >= |p|
  }

  // ----- facts about the plan -----

  lemma {:induction false} FilesStep(es: seq<DirEntry>, i: nat)
    requires i < |es|
    ensures Files(es[..i + 1]) == Files(es[..i]) + (if !Hidden(es[i]) && !es[i].isDir then [es[i]] else [])
    ensures Folders(es[..i + 1]) == Folders(es[..i]) + (if !Hidden(es[i]) && es[i].isDir then [es[i]] else [])
  {
    assert es[..i + 1][..i] == es[..i];
  }

  /** The filtering walk keeps exactly the entries that are not hidden, files before
      folders: `Files` holds the visible non-directories and `Folders` the visible
      directories, each in listing order. */
  lemma {:induction false} FilesExact(es: seq<DirEntry>)
    ensures forall e | e in Files(es) :: e in es && !Hidden(e) && !e.isDir
    ensures forall e | e in Folders(es) :: e in es && !Hidden(e) && e.isDir
    ensures forall e | e in es && !Hidden(e) :: e in (if e.isDir then Folders(es) else Files(es))
  {
    if es != [] {
      var init, last := es[..|es| - 1], es[|es| - 1];
      FilesExact(init);
      assert es == init + [last];
    }
  }

  /** In the filtering walk's plan no entry is hidden and every file comes before
      every folder. */
  lemma {:induction false} SortedPlanOrder(es: seq<DirEntry>)
    ensures forall i | 0 <= i < |SortedPlan(es)| :: |SortedPlan(es)[i].name| == 0 || SortedPlan(es)[i].name[0] != '.'
    ensures forall i, j | 0 <= i < j < |SortedPlan(es)| && SortedPlan(es)[i].kind == Folder :: SortedPlan(es)[j].kind == Folder
    ensures forall i | 0 <= i < |SortedPlan(es)| :: SortedPlan(es)[i].expanded <==> SortedPlan(es)[i].kind == Folder
  {
    var F, D := Files(es), Folders(es);
    FilesExact(es);
    forall i | 0 <= i < |SortedPlan(es)|
      ensures |SortedPlan(es)[i].name| == 0 || SortedPlan(es)[i].name[0] != '.'
    {
      if i < |F| {
        assert F[i] in F;
      } else {
        assert D[i - |F|] in D;
      }
    }
  }

  // ----- the walks -----

  /** The first loop of the filtering walk: split the entries into visible files and
      visible folders. */
  method Partition(entries: seq<DirEntry>) returns (files: seq<DirEntry>, folders: seq<DirEntry>)
    ensures files == Files(entries) && folders == Folders(entries)
  {
    files, folders := [], [];
    var i := 0;
    while i < |entries|
      invariant 0 <= i <= |entries|
      invariant files == Files(entries[..i]) && folders == Folders(entries[..i])
    {
      FilesStep(entries, i);
      var e := entries[i];
      if |e.name| > 0 && e.name[0] == '.' {
        i := i + 1;
        continue;
      }
      if e.isDir {
        folders := folders + [e];
      } else {
        files := files + [e];
      }
      i := i + 1;
    }
    assert entries[..i] == entries;
  }

  /** Make the node planned as `e` for `node`, whose directory is `dir`, and hang it
      last: the children now match the plan extended by `e`. */
  method HangOne(node: Node, dir: string, e: Planned, ghost plan: seq<Planned>,
                 ghost root: Node, ghost S: set<Node>, ghost A: set<Node>, ghost B: nat)
    returns (c: Node, ghost S': set<Node>, ghost A': set<Node>, ghost B': nat)
    requires Shaped(root, S, A, B) && node in S && node.kind == Folder
    requires Matches(node, dir, plan)
    modifies node`children
    ensures fresh(c) && c.kind == e.kind && c.path == Paths.Join(dir, e.name)
    ensures c.children == [] && c.parent == node && c.prev == null && c.next == null
    ensures Matches(node, dir, plan + [e])
    ensures S' == S + {c} && Shaped(root, S', A', B')
  {
    c := new Node(e.kind, Paths.Join(dir, e.name), node, e.expanded, node.depth + 1);
    AttachLast(node, c, root, S, A, B);
    S', A', B' := S + {c}, Grown(A, node, c), Deeper(B, c.depth);
  }

  /** walkFileSystemAndBuildTree of internal/ui/fstree/model.go and fstree/fs.go: refuse a
      nil node or one with children, list the directory (failing when it cannot be
      read), skip dot entries, hang the files (collapsed) and then the folders
      (expanded), walking each folder in turn and ignoring its error. Every node it
      makes, and `node` itself, ends with exactly the children its listing calls for. */
  method WalkSorted(dirs: Listing, rootPath: string, node: Node?,
                    ghost root: Node, ghost S: set<Node>, ghost A: set<Node>, ghost B: nat)
    returns (err: Outcome, ghost S': set<Node>, ghost A': set<Node>, ghost B': nat)
    requires Named(dirs) && Shaped(root, S, A, B)
    requires node != null ==> node in S && node.kind == Folder
    modifies (if node != null then {node} else {})`children
    decreases KeysFrom(dirs, rootPath), 4
    ensures node == null ==> err == Fail(NilNode)
    ensures node != null && old(node.children) != [] ==> err == Fail(HasChildren)
    ensures node != null && old(node.children) == [] ==>
      err == (if rootPath in dirs then Ok else Fail(ReadDirFailed)) &&
      Matches(node, rootPath, Expected(dirs, rootPath, true))
    ensures node != null && old(node.children) != [] ==> node.children == old(node.children)
    ensures Shaped(root, S', A', B') && S <= S' && fresh(S' - S)
    ensures forall n | n in S' - S :: Done(n, dirs, true)
  {
    S', A', B' := S, A, B;
    if node == null {
      err := Fail(NilNode);
      return;
    }
    if |node.children| > 0 {
      err := Fail(HasChildren);
      return;
    }
    if rootPath !in dirs {
      err := Fail(ReadDirFailed);
      return;
    }
    S', A', B' := WalkDir(dirs, rootPath, node, root, S, A, B);
    err := Ok;
  }

  /** The walk of a readable directory whose node has no children yet. */
  method WalkDir(dirs: Listing, rootPath: string, node: Node,
                 ghost root: Node, ghost S: set<Node>, ghost A: set<Node>, ghost B: nat)
    returns (ghost S': set<Node>, ghost A': set<Node>, ghost B': nat)
    requires Named(dirs) && Shaped(root, S, A, B) && node in S && node.kind == Folder
    requires node.children == [] && rootPath in dirs
    modifies node`children
    decreases KeysFrom(dirs, rootPath), 3
    ensures Matches(node, rootPath, SortedPlan(dirs[rootPath]))
    ensures Shaped(root, S', A', B') && S <= S' && fresh(S' - S)
    ensures forall n | n in S' - S :: Done(n, dirs, true)
  {
    var files, folders := Partition(dirs[rootPath]);
    FilesExact(dirs[rootPath]);
    S', A', B' := HangFiles(rootPath, node, files, root, S, A, B);
    S', A', B' := HangFolders(dirs, rootPath, node, folders, AsPlanned(files, File, false), root, S', A', B', S);
  }

  /** The second loop: hang one collapsed file node per entry. */
  method HangFiles(rootPath: string, node: Node, files: seq<DirEntry>,
                   ghost root: Node, ghost S: set<Node>, ghost A: set<Node>, ghost B: nat)
    returns (ghost S': set<Node>, ghost A': set<Node>, ghost B': nat)
    requires Shaped(root, S, A, B) && node in S && node.kind == Folder && node.children == []
    modifies node`children
    ensures Shaped(root, S', A', B') && S <= S' && fresh(S' - S)
    ensures Matches(node, rootPath, AsPlanned(files, File, false))
    ensures forall n | n in S' - S :: n.kind == File && n.children == [] && n.prev == null && n.next == null
  {
    S', A', B' := S, A, B;
    ghost var plan := AsPlanned(files, File, false);
    var j := 0;
    while j < |files|
      invariant 0 <= j <= |files|
      invariant Shaped(root, S', A', B') && S <= S' && fresh(S' - S)
      invariant Matches(node, rootPath, plan[..j])
      invariant forall n | n in S' - S :: n.kind == File && n.children == [] && n.prev == null && n.next == null
    {
      var c;
      c, S', A', B' := HangOne(node, rootPath, Planned(File, files[j].name, false), plan[..j], root, S', A', B');
      MatchesStep(node, rootPath, plan, j, Planned(File, files[j].name, false));
      j := j + 1;
    }
    assert plan[..j] == plan;
  }

  /** The third loop: hang one expanded folder node per entry and walk it, ignoring the
      walk's error. `prefix` is the plan of the children hung before. */
  method HangFolders(dirs: Listing, rootPath: string, node: Node, folders: seq<DirEntry>,
                     ghost prefix: seq<Planned>,
                     ghost root: Node, ghost S: set<Node>, ghost A: set<Node>, ghost B: nat, ghost S0: set<Node>)
    returns (ghost S': set<Node>, ghost A': set<Node>, ghost B': nat)
    requires Named(dirs) && Shaped(root, S, A, B) && node in S0 && S0 <= S && node.kind == Folder
    requires rootPath in dirs && forall e | e in folders :: e in dirs[rootPath]
    requires Matches(node, rootPath, prefix)
    requires forall n | n in S - S0 :: Done(n, dirs, true)
    modifies node`children
    decreases KeysFrom(dirs, rootPath), 2
    ensures Shaped(root, S', A', B') && S <= S' && fresh(S' - S)
    ensures Matches(node, rootPath, prefix + AsPlanned(folders, Folder, true))
    ensures forall n | n in S' - S0 :: Done(n, dirs, true)
  {
    S', A', B' := S, A, B;
    ghost var plan := prefix + AsPlanned(folders, Folder, true);
    var k := 0;
    while k < |folders|
      invariant 0 <= k <= |folders|
      invariant Shaped(root, S', A', B') && S <= S' && fresh(S' - S)
      invariant Matches(node, rootPath, plan[..|prefix| + k])
      invariant forall n | n in S' - S0 :: Done(n, dirs, true)
    {
      S', A', B' := FolderTurn(dirs, rootPath, node, folders, k, prefix, root, S', A', B', S0);
      k := k + 1;
    }
    assert plan[..|prefix| + k] == plan;
  }

  /** One turn of the third loop, over the `k`-th folder entry. */
  method FolderTurn(dirs: Listing, rootPath: string, node: Node, folders: seq<DirEntry>, k: nat,
                    ghost prefix: seq<Planned>,
                    ghost root: Node, ghost S: set<Node>, ghost A: set<Node>, ghost B: nat, ghost S0: set<Node>)
    returns (ghost S': set<Node>, ghost A': set<Node>, ghost B': nat)
    requires Named(dirs) && Shaped(root, S, A, B) && node in S0 && S0 <= S && node.kind == Folder
    requires rootPath in dirs && (forall e | e in folders :: e in dirs[rootPath]) && k < |folders|
    requires Matches(node, rootPath, (prefix + AsPlanned(folders, Folder, true))[..|prefix| + k])
    requires forall n | n in S - S0 :: Done(n, dirs, true)
    modifies node`children
    decreases KeysFrom(dirs, rootPath), 1
    ensures Shaped(root, S', A', B') && S <= S' && fresh(S' - S)
    ensures Matches(node, rootPath, (prefix + AsPlanned(folders, Folder, true))[..|prefix| + k + 1])
    ensures forall n | n in S' - S0 :: Done(n, dirs, true)
  {
    ghost var plan := prefix + AsPlanned(folders, Folder, true);
    assert folders[k] in dirs[rootPath];
    S', A', B' := HangFolder(dirs, rootPath, node, folders[k], plan[..|prefix| + k], root, S, A, B);
    MatchesStep(node, rootPath, plan, |prefix| + k, Planned(Folder, folders[k].name, true));
  }

  /** One turn of the third loop: hang the folder node for `e` and walk it. */
  method HangFolder(dirs: Listing, rootPath: string, node: Node, e: DirEntry, ghost plan: seq<Planned>,
                    ghost root: Node, ghost S: set<Node>, ghost A: set<Node>, ghost B: nat)
    returns (ghost S': set<Node>, ghost A': set<Node>, ghost B': nat)
    requires Named(dirs) && Shaped(root, S, A, B) && node in S && node.kind == Folder
    requires rootPath in dirs && e in dirs[rootPath]
    requires Matches(node, rootPath, plan)
    modifies node`children
    decreases KeysFrom(dirs, rootPath), 0
    ensures Shaped(root, S', A', B') && S <= S' && fresh(S' - S) && node in S
    ensures Matches(node, rootPath, plan + [Planned(Folder, e.name, true)])
    ensures forall n | n in S' - S :: Done(n, dirs, true)
  {
    var path := Paths.Join(rootPath, e.name);
    assert KeysFrom(dirs, path) < KeysFrom(dirs, rootPath) by {
      assert rootPath !in KeysFrom(dirs, path);
    }
    var c;
    c, S', A', B' := HangOne(node, rootPath, Planned(Folder, e.name, true), plan, root, S, A, B);
    var _, S1, A1, B1 := WalkSorted(dirs, path, c, root, S', A', B');
    S', A', B' := S1, A1, B1;
  }

  /** walkFileSystemAndBuildTree of fs.go: refuse a nil node or one with children, list
      the directory (failing when it cannot be read), then hang one collapsed node per
      entry, in listing order and without filtering, walking each folder as soon as it
      is hung and returning its error at once. The children hung before the error stay. */
  method WalkPlain(dirs: Listing, rootPath: string, node: Node?,
                   ghost root: Node, ghost S: set<Node>, ghost A: set<Node>, ghost B: nat)
    returns (err: Outcome, ghost S': set<Node>, ghost A': set<Node>, ghost B': nat)
    requires Named(dirs) && Shaped(root, S, A, B)
    requires node != null ==> node in S && node.kind == Folder
    modifies (if node != null then {node} else {})`children
    decreases KeysFrom(dirs, rootPath), 3
    ensures node == null ==> err == Fail(NilNode)
    ensures node != null && old(node.children) != [] ==> err == Fail(HasChildren) && node.children == old(node.children)
    ensures node != null && old(node.children) == [] && rootPath !in dirs ==> err == Fail(ReadDirFailed)
    ensures node != null && old(node.children) == [] ==> err == Ok || err == Fail(ReadDirFailed)
    ensures node != null && old(node.children) == [] ==>
      var plan := Expected(dirs, rootPath, false);
      |node.children| <= |plan| && Matches(node, rootPath, plan[..|node.children|])
    ensures err == Ok ==> node != null && Matches(node, rootPath, Expected(dirs, rootPath, false))
    ensures err == Ok ==> forall n | n in S' - S :: Done(n, dirs, false)
    ensures node != null && old(node.children) == [] ==> (err == Ok <==> Readable(dirs, rootPath))
    ensures forall n | n in S' - S :: Unlinked(n)
    ensures Shaped(root, S', A', B') && S <= S' && fresh(S' - S)
  {
    S', A', B' := S, A, B;
    if node == null {
      err := Fail(NilNode);
      return;
    }
    if |node.children| > 0 {
      err := Fail(HasChildren);
      return;
    }
    if rootPath !in dirs {
      err := Fail(ReadDirFailed);
      return;
    }
    err, S', A', B' := WalkEntries(dirs, rootPath, node, root, S, A, B);
  }

  /** The loop of the plain walk over a readable directory. */
  method WalkEntries(dirs: Listing, rootPath: string, node: Node,
                     ghost root: Node, ghost S: set<Node>, ghost A: set<Node>, ghost B: nat)
    returns (err: Outcome, ghost S': set<Node>, ghost A': set<Node>, ghost B': nat)
    requires Named(dirs) && Shaped(root, S, A, B) && node in S && node.kind == Folder
    requires node.children == [] && rootPath in dirs
    modifies node`children
    decreases KeysFrom(dirs, rootPath), 2
    ensures err == Ok || err == Fail(ReadDirFailed)
    ensures |node.children| <= |PlainPlan(dirs[rootPath])|
    ensures Matches(node, rootPath, PlainPlan(dirs[rootPath])[..|node.children|])
    ensures err == Ok ==> |node.children| == |PlainPlan(dirs[rootPath])|
    ensures err == Ok ==> forall n | n in S' - S :: Done(n, dirs, false)
    ensures err == Ok <==> Readable(dirs, rootPath)
    ensures forall n | n in S' - S :: Unlinked(n)
    ensures Shaped(root, S', A', B') && S <= S' && fresh(S' - S)
  {
    S', A', B' := S, A, B;
    var entries := dirs[rootPath];
    ghost var plan := PlainPlan(entries);
    err := Ok;
    var i := 0;
    // the loop stops at the first error, where the source returns it
    while i < |entries| && err == Ok
      invariant 0 <= i <= |entries|
      invariant Shaped(root, S', A', B') && S <= S' && fresh(S' - S)
      invariant Matches(node, rootPath, plan[..i])
      invariant err == Ok || err == Fail(ReadDirFailed)
      invariant err == Ok ==> forall n | n in S' - S :: Done(n, dirs, false)
      invariant err != Ok ==> !Readable(dirs, rootPath)
      invariant err == Ok ==> ReadableBefore(dirs, rootPath, i)
      invariant forall n | n in S' - S :: Unlinked(n)
    {
      err, S', A', B' := EntryTurn(dirs, rootPath, node, i, root, S', A', B', S);
      i := i + 1;
    }
    if err == Ok {
      ReadableEntries(dirs, rootPath);
    }
  }

  /** One turn of the plain walk's loop, on the `i`-th entry: the children grow by its
      node, and the readability of the entries so far is tracked. */
  method EntryTurn(dirs: Listing, rootPath: string, node: Node, i: nat,
                   ghost root: Node, ghost S: set<Node>, ghost A: set<Node>, ghost B: nat, ghost S0: set<Node>)
    returns (err: Outcome, ghost S': set<Node>, ghost A': set<Node>, ghost B': nat)
    requires Named(dirs) && Shaped(root, S, A, B) && node in S0 && S0 <= S && node.kind == Folder
    requires rootPath in dirs && i < |dirs[rootPath]|
    requires Matches(node, rootPath, PlainPlan(dirs[rootPath])[..i])
    requires forall n | n in S - S0 :: Done(n, dirs, false)
    requires forall n | n in S - S0 :: Unlinked(n)
    requires ReadableBefore(dirs, rootPath, i)
    modifies node`children
    decreases KeysFrom(dirs, rootPath), 1
    ensures Shaped(root, S', A', B') && S <= S' && fresh(S' - S)
    ensures Matches(node, rootPath, PlainPlan(dirs[rootPath])[..i + 1])
    ensures err == Ok || err == Fail(ReadDirFailed)
    ensures err == Ok ==> forall n | n in S' - S0 :: Done(n, dirs, false)
    ensures err == Ok ==> ReadableBefore(dirs, rootPath, i + 1)
    ensures err != Ok ==> !Readable(dirs, rootPath)
    ensures forall n | n in S' - S0 :: Unlinked(n)
  {
    var e := dirs[rootPath][i];
    ghost var plan := PlainPlan(dirs[rootPath]);
    assert e in dirs[rootPath];
    err, S', A', B' := HangEntry(dirs, rootPath, node, e, plan[..i], root, S, A, B);
    MatchesStep(node, rootPath, plan, i, Planned(if e.isDir then Folder else File, e.name, false));
    if err != Ok {
      UnreadableEntry(dirs, rootPath, i);
    } else {
      ReadableBeforeStep(dirs, rootPath, i);
    }
  }

  /** One turn of the plain walk's loop: hang the node for `e` and walk it when it is a
      folder. */
  method HangEntry(dirs: Listing, rootPath: string, node: Node, e: DirEntry, ghost plan: seq<Planned>,
                   ghost root: Node, ghost S: set<Node>, ghost A: set<Node>, ghost B: nat)
    returns (err: Outcome, ghost S': set<Node>, ghost A': set<Node>, ghost B': nat)
    requires Named(dirs) && Shaped(root, S, A, B) && node in S && node.kind == Folder
    requires rootPath in dirs && e in dirs[rootPath]
    requires Matches(node, rootPath, plan)
    modifies node`children
    decreases KeysFrom(dirs, rootPath), 0
    ensures Shaped(root, S', A', B') && S <= S' && fresh(S' - S)
    ensures Matches(node, rootPath, plan + [Planned(if e.isDir then Folder else File, e.name, false)])
    ensures err == Ok || err == Fail(ReadDirFailed)
    ensures err == Ok ==> forall n | n in S' - S :: Done(n, dirs, false)
    ensures err == Ok <==> (e.isDir ==> Readable(dirs, Paths.Join(rootPath, e.name)))
    ensures forall n | n in S' - S :: Unlinked(n)
  {
    var path := Paths.Join(rootPath, e.name);
    var c;
    c, S', A', B' := HangOne(node, rootPath, Planned(if e.isDir then Folder else File, e.name, false), plan, root, S, A, B);
    err := Ok;
    if e.isDir {
      assert KeysFrom(dirs, path) < KeysFrom(dirs, rootPath) by {
        assert rootPath !in KeysFrom(dirs, path);
      }
      ghost var S1: set<Node>, A1: set<Node>, B1: nat;
      err, S1, A1, B1 := WalkPlain(dirs, path, c, root, S', A', B');
      S', A', B' := S1, A1, B1;
    }
  }

  // ----- the root a tree starts from -----

  /** The root NewFsTree makes, an expanded folder at `rootPath`, filled by the filtering
      walk. */
  method PlantSorted(dirs: Listing, rootPath: string) returns (r: Node, ghost S: set<Node>, ghost A: set<Node>, ghost B: nat)
    requires Named(dirs)
    ensures Shaped(r, S, A, B) && r in S && fresh(S)
    ensures r.kind == Folder && r.path == rootPath && r.expanded
    ensures Matches(r, rootPath, Expected(dirs, rootPath, true))
    ensures forall n | n in S - {r} :: Built(n, dirs, true)
    ensures forall n | n in S :: Unlinked(n)
  {
    r := new Node(Folder, rootPath, null, true, 0);
    var err;
    err, S, A, B := WalkSorted(dirs, rootPath, r, r, {r}, {r}, 0);
    forall n | n in S ensures Unlinked(n) && (n != r ==> Built(n, dirs, true)) {
      if n != r {
        assert n in S - {r};
      }
    }
  }

  /** The root the main-package NewFsTree makes, filled by the plain walk, whose error
      it ignores: the root keeps the children hung before the first error. */
  method PlantPlain(dirs: Listing, rootPath: string) returns (r: Node, ghost S: set<Node>, ghost A: set<Node>, ghost B: nat)
    requires Named(dirs)
    ensures Shaped(r, S, A, B) && r in S && fresh(S)
    ensures r.kind == Folder && r.path == rootPath && r.expanded
    ensures rootPath !in dirs ==> r.children == []
    ensures var plan := Expected(dirs, rootPath, false);
      |r.children| <= |plan| && Matches(r, rootPath, plan[..|r.children|])
    ensures Readable(dirs, rootPath) ==>
      Matches(r, rootPath, Expected(dirs, rootPath, false)) && forall n | n in S - {r} :: Built(n, dirs, false)
    ensures forall n | n in S :: Unlinked(n)
  {
    r := new Node(Folder, rootPath, null, true, 0);
    var err;
    err, S, A, B := WalkPlain(dirs, rootPath, r, r, {r}, {r}, 0);
  }
}
