# mend: a verified model of the note browser's core

mend is a terminal note browser. On the left of the screen is a file tree of a notes directory; on the right, a pane that shows one Markdown note section by section. This project models the parts of mend whose behaviour can be stated precisely and proves properties about them.

- **The line-addressed file tree** (`internal/ui/fstree/model.go`, copied in `fstree.go`). Nodes have a kind, a path, child lists, a parent link and an expanded flag. A line map and a `prev`/`next` chain are rebuilt after every change. The tree supports moving the selection, toggling a folder, creating and deleting entries, sizing the viewport and mouse clicks.
  - Module `LineTree`, with the shared node class in `TreeShape` and the tree-surgery facts in `TreeEdit` and `TreeOrder`.
  - The key result: after every successful mutator, the line map and the chain are exactly the pre-order list of the visible nodes (`Synced`, unfolded by `SyncedLayout`). The one failure that leaves the tree out of sync is `CreateNode` on a collapsed target folder. The source expands the folder before it checks the name and the disk, and it does not rebuild when either check fails.
- **The older link-walking tree** (`fstree/fstree.go`). It has no caches: moves climb parent links and scan child lists.
  - Module `NavTree`.
  - The lemmas prove that a move lands on the pre-order neighbour among the visible nodes. One exception is reproduced as written: the upward move from the very first visible node descends into that node's own last visible descendant.
- **Building a tree from a directory listing** (`fstree/fs.go`, `fs.go`, and the walk in `internal/ui/fstree/model.go`).
  - Module `TreeWalk`.
  - There are two policies:
    - sorted: hidden names are skipped, files come before folders, and errors below the top are ignored;
    - plain: the listing order is kept, nothing is hidden, and the first error below the top stops the walk.
  - The listing is an input map from a directory path to its entries.
- **The filesystem gateway** (`internal/filesystem/fs.go`, `fstree/fs.go`).
  - Module `Gateway`.
  - The disk is an abstract map from paths to entries.
  - Each call is a check-then-change step. Whether the operating system call itself succeeds is a parameter.
- **The note pane**:
  - the section splitter over the parsed headings (`NoteSections`);
  - the hint extractor for `**…**`/`__…__` spans, with the same leftmost-first semantics as the regular expression (`NoteHints`);
  - the pane's state machine for view cycling, section navigation, loading and editing (`NotePane`);
  - the single-note title/content split of `notes/notes.go` (`NoteFile`);
  - Go's `strings.TrimSpace`, `Split` and `Join` on lines (`NoteText`).
- **The search engine** (`internal/search/engine.go`).
  - Module `Search`.
  - It covers name and content matching, word-boundary scores, the snippet window, and the order of results by score.
- **The layout clamp** (`layout.go`, module `Layout`) and **the cell compositor** (`compositor/compositor.go`, module `Compositor`).
  - `Compositor` is a grid of styled cells. Writing to it consumes ANSI SGR escape sequences (the control-sequence form of section 5.4 of ECMA-48, final byte `m`, section 8.3.117) as style changes. Rendering emits a reset only where the style changes.
- **Small helpers**:
  - `Slices`: `RemoveFromSlice` of `utils.go`;
  - `Paths`: a model of `filepath.Join`/`Base`;
  - `GoArith`: Go's truncating division;
  - `Outcomes`: error values and `Option`.

State that the source updates in place is modelled as Dafny classes:

- `LineTree.FsTree`, `NavTree.FsTree` and `TreeShape.Node`;
- `Gateway.Disk`;
- `NotePane.NoteView`;
- `Search.SearchEngine`;
- `Compositor.Grid`, over an `array2`.

Each method of these classes is specified either by functions of the old state or by predicates that fix the new state, such as `Synced` in `LineTree.FsTree`. The properties are proved about those functions and predicates. Loops stay loops, with their invariants:

- `RemoveFromSlice`, `ExtractHints`, `ParseSections`;
- `ExtractSnippet`, `Search`;
- `Grid.Write` and `Grid.Render`;
- the line rebuild and the moves of the older tree.

## Model

| member | source | states |
|---|---|---|
| TreeShape.Node.constructor | internal/ui/fstree/model.go:32-42 | A new node has the given kind, path, parent and expanded flag, no children and empty line/prev/next caches. |
| LineTree.FileName | internal/ui/fstree/model.go:44-51 | A folder is shown by the base name of its path; a file by its base name with one trailing ".md" removed. |
| LineTree.CreatedName | internal/ui/fstree/model.go:435-439 | A node created under `name` (with ".md" added to a file name that lacks it) is shown as `name` without its ".md". |
| LineTree.EntryName | internal/ui/fstree/model.go:435-437 | A file name always ends in ".md": it is the name itself when it already does, the name plus ".md" otherwise; a folder name is kept. |
| LineTree.ViewportBounds | internal/ui/fstree/model.go:179-198 | No selection gives (0, 0). Otherwise 0 <= start <= end <= totalLines and the window is at most the height; for height >= 1, the selected line lies inside the window. |
| LineTree.FsTree.BuildLines | internal/ui/fstree/model.go:379-394 | After the rebuild the tree is `Synced`: root at line -1, the visible nodes numbered in pre-order with a blank line before each top-level folder not at line 0, prev/next linking exactly those nodes, and `lines` mapping each line to its node. Hidden nodes keep their caches. |
| LineTree.FsTree.BuildLinesRec | internal/ui/fstree/model.go:396-414 | One node's walk appends its pre-order list to the flat list, stores its lines into the map and numbers them consecutively from the current line, with the separator rule and the root at -1. |
| LineTree.FsTree.BuildChildLines | internal/ui/fstree/model.go:409-413 | The children of an expanded node are walked in order, each continuing the numbering where the previous one stopped. |
| LineTree.FsTree.LinkVisible | internal/ui/fstree/model.go:385-393 | The wiring loop makes every visible node's prev/next its pre-order neighbours, nil at the two ends. |
| LineTree.FsTree.SyncedLayout | internal/ui/fstree/model.go:380-407 | A synced tree has lines[-1] == root, lines[n.line] == n for every visible n, and only lines of visible nodes in the map. The first visible line is 0, lines rise by 2 before a top-level folder and by 1 otherwise, and totalLines is the last line + 1 (0 when empty). Following next from the first node yields exactly the visible list. |
| LineTree.NumberedSteps | internal/ui/fstree/model.go:401-407 | The numbering rule: the first line is 0, each step adds 1, or 2 before a depth-1 folder, and the total is the last line + 1. |
| LineTree.NumberedMap | internal/ui/fstree/model.go:383-405 | The line map built by the walk maps -1 to the root and each visible node's line to that node, with no other keys. |
| LineTree.ChainFromHead | internal/ui/fstree/model.go:385-393 | Following next from the head of a linked list visits exactly that list. |
| LineTree.FsTree.ToggleExpand | internal/ui/fstree/model.go:275-286 | A nil node fails with NilNode and a file with NotFolder, both changing nothing. Otherwise only that folder's flag is flipped and the tree is resynced. |
| LineTree.FsTree.ToggleSelectedExpand | internal/ui/fstree/model.go:312-322 | No selection fails with NoSelection and a selected file with NotFolder, both changing nothing. Otherwise the selected folder flips and the tree is resynced; the selection is kept. |
| LineTree.FsTree.ToggleTwice | internal/ui/fstree/model_test.go:111-147 | Two toggles of a folder both succeed and restore every flag, the visible list, the line map, the total and every visible node's line/prev/next. |
| LineTree.FsTree.DeleteNode | internal/ui/fstree/model.go:247-273 | Nil gives NilNode and a parentless node NoParent, the disk untouched. Otherwise the disk takes the DeletePath step. On failure the tree is unchanged, although a failed removal may already have deleted part of the subtree on disk. On success exactly the first occurrence of the node leaves its parent's children, so the attached set loses its subtree. The selection becomes the old prev, else the root's first child, else nil, and is never inside the removed subtree. The tree is resynced. |
| LineTree.FsTree.RemoveNode | internal/ui/fstree/model.go:261-271 | The success half of deletion: the child list loses the node, the selection falls back as above and the lines are rebuilt. |
| LineTree.FsTree.CreateNode | internal/ui/fstree/model.go:416-474 | Nil gives NilNode. A file target is redirected to its parent, and a non-folder target gives NotFolder with nothing changed. Otherwise the folder is expanded first, even when the call then fails. An empty name gives EmptyName with no disk change; otherwise the disk takes the create step for Join(folder, name + ".md" for files). On failure the children, lines and selection are unchanged. On success one fresh node is added, prepended if a file (not expanded) and appended if a folder (expanded), it is selected, and the tree is resynced. |
| LineTree.FsTree.CreateIn | internal/ui/fstree/model.go:431-474 | From a folder target: an empty name fails, otherwise the disk step decides, and success adds the one selected node. |
| LineTree.FsTree.AddNode | internal/ui/fstree/model.go:454-472 | The created node has the kind, path and parent link, is placed first (file) or last (folder), becomes the selection and the tree is resynced. |
| LineTree.FsTree.Move | internal/ui/fstree/model.go:288-307 | Nil selection fails with NoSelection, a delta outside {-1, 1} with BadDelta, both keeping the selection. Otherwise the selection becomes next (or prev), or stays when that is nil; on a synced tree this is the visible neighbour, with no wrap at either end. |
| LineTree.FsTree.MoveUp | internal/ui/fstree/model.go:309 | `move(-1)`: the previous visible node, or unchanged at the top. |
| LineTree.FsTree.MoveDown | internal/ui/fstree/model.go:310 | `move(1)`: the next visible node, or unchanged at the bottom. |
| LineTree.FsTree.Mouse | internal/ui/fstree/model.go:127-157 | Wheel presses move the selection up or down. The row is shifted by viewStart - startOffset. A mouse event right of the tree changes nothing else; otherwise the hovered node is the node at that row, or nil. A left press on a row holding a node selects it and toggles it when it is a folder, and any other event keeps the selection. After a folder click the line caches are synced again; after any other event the line map, the line count and every node's line, prev and next are unchanged, and a synced tree stays synced. The viewport is then recomputed. |
| LineTree.FsTree.PointedFramed | internal/ui/fstree/model.go:137-157 | Hover and click at the shifted row, then the viewport: a folder click leaves the caches synced, anything else leaves them as they were. |
| LineTree.FsTree.Wheel | internal/ui/fstree/model.go:127-135 | A wheel-up press selects prev when there is one, a wheel-down press next; anything else keeps the selection. Hover, line map, line count and syncing are untouched. |
| LineTree.FsTree.Pointed | internal/ui/fstree/model.go:138-154 | Right of the tree nothing changes. Otherwise the hovered node is the one at the row, or nil; a left press on a node selects it and flips it when it is a folder, which leaves the caches synced. Every other event leaves the line map, the line count and every node's caches as they were. |
| LineTree.FsTree.Point | internal/ui/fstree/model.go:142-153 | The same, once the mouse is known to be over the tree. |
| LineTree.FsTree.Click | internal/ui/fstree/model.go:146-153 | A clicked node becomes the selection, and a clicked folder flips, leaving the tree synced. A clicked file changes nothing else: the line map, the line count and every node's caches are kept. |
| LineTree.FsTree.Reframe | internal/ui/fstree/model.go:157 | The stored viewport is the selection's window of `getViewportBounds`; a synced tree stays synced. |
| LineTree.FsTree.Resize | internal/ui/fstree/model.go:102-104 | The window size message sets width and height; the viewport is then recomputed. |
| LineTree.NewFsTree | internal/ui/fstree/model.go:227-245 | The root is an expanded folder at the path, built by the sorted walk. The first root child, or nil, is selected, the lines are synced, and nothing is hovered. |
| LineTree.NewFsTreePlain | fstree.go:227-245 | The same constructor with the walk of fs.go: the root's children are a prefix of the listing's plan, and none when the path cannot be read. When every folder the walk reaches can be listed, they are the whole plan. |
| LineTree.FsTree.constructor | internal/ui/fstree/model.go:236-242 | The tree holds the root, the disk and the offset, selects the first root child or nil, and has no hover and an empty viewport. |
| NavTree.FsTree.constructor | fstree/fstree.go:60-68 | The older tree selects the root's first child, or nil. |
| NavTree.NewFsTree | fstree/fstree.go:51-69 | The root is an expanded folder at the path whose children are the sorted walk's plan, with the first child, or nil, selected. |
| NavTree.FsTree.CreateNode | fstree/fstree.go:71-92 | Errors come in the order nil parent, non-folder parent, empty name, each leaving the tree as it was. On success exactly one fresh child is appended, with path Join(parent, name), the parent link set, expanded for either kind and no children; no other child list changes and the selection is kept. |
| NavTree.FsTree.DeleteNode | fstree/fstree.go:94-105 | Nil and parentless nodes fail and change nothing. Otherwise exactly the first occurrence of the node leaves its parent's children and its subtree leaves the attached set; the selection is untouched. |
| NavTree.FsTree.ToggleExpand | fstree/fstree.go:107-117 | Nil gives NilNode and a file NotFolder, both changing nothing. A folder's flag is negated, and only that flag. |
| NavTree.FsTree.ToggleSelectedExpand | fstree/fstree.go:187-197 | No selection gives NoSelection and a selected file NotFolder; a selected folder flips, and nothing else does. |
| NavTree.FsTree.Move | fstree/fstree.go:122-182 | No selection fails with NoSelection, a delta outside {-1, 1} with BadDelta keeping the selection; otherwise the selection becomes the structural move `Moved`. |
| NavTree.FsTree.Sideways | fstree/fstree.go:149-168 | The climb: the sibling at the delta of the nearest ancestor-or-self that has one, or the start when there is none. |
| NavTree.FsTree.Descend | fstree/fstree.go:171-180 | The descent through last children while folders are expanded and non-empty. |
| NavTree.SiblingIndex | fstree/fstree.go:153-159 | The scan finds the child's index and offsets it by the delta, or gives -1 when the child is not in the list. |
| NavTree.FsTree.MoveDown | fstree/fstree.go:185 | From the k-th visible node the selection moves to the (k+1)-th, and stays on the last. |
| NavTree.FsTree.MoveUp | fstree/fstree.go:184 | From the k-th visible node, k > 0, the selection moves to the (k-1)-th. From the first, it moves to that node's own deepest last descendant. |
| NavTree.MoveDownNext | fstree/fstree.go:130-168 | The structural move down from the k-th node of the pre-order visible list is the (k+1)-th node, or the node itself at the end. |
| NavTree.MoveUpPrev | fstree/fstree.go:136-180 | The structural move up from the k-th visible node is the (k-1)-th; from the first visible node it is its deepest last descendant, not the node itself. |
| NavTree.UpToParent | fstree/fstree.go:136-141 | From the first child of a non-root folder, the move up is the parent, which is the visible predecessor. |
| NavTree.UpFromLater | fstree/fstree.go:171-180 | From a later child, the move up is the previous sibling's last visible descendant, which is the visible predecessor. |
| NavTree.UpFromFirst | fstree/fstree.go:171-180 | From the first root child, nothing precedes it, yet the descent still runs and gives that child's deepest last descendant. |
| NavTree.DescentMoves | fstree/fstree.go:171-180 | The descent stays put exactly when the node has no children or is collapsed. |
| NavTree.ClimbDown | fstree/fstree.go:130-168 | The climb with delta 1 finds the first node after the subtree in pre-order, or none. |
| NavTree.LastOfSub | fstree/fstree.go:171-180 | The descent ends at the last node of the node's visible subtree. |
| NavTree.FileName | fstree/fstree.go:41-43 | `filepath.Base` of the path: never empty, "." for an empty path, and free of separators except for "/". |
| NavTree.CreatedFileName | fstree/fstree.go:41-43 | A node created with a non-empty, slash-free name shows that name. |
| TreeWalk.WalkSorted | fstree/fs.go:17-70 | Nil gives NilNode and a node with children HasChildren, unchanged. An unreadable path gives ReadDirFailed. Otherwise the children are the plan `Expected` in order (the same code as internal/ui/fstree/model.go:476-529): dot names skipped, every file before every folder, each group in listing order, files collapsed and folders expanded, parent links set, and each folder walked again with its errors ignored. |
| TreeWalk.WalkDir | fstree/fs.go:25-66 | A readable directory gets the sorted plan of its listing, and every new node is built to plan recursively. |
| TreeWalk.Partition | fstree/fs.go:33-43 | The split loop gives exactly the listed non-hidden files and non-hidden folders, each in listing order. |
| TreeWalk.HangFiles | fstree/fs.go:45-54 | Each file becomes a collapsed, childless child in order. |
| TreeWalk.HangFolders | fstree/fs.go:56-66 | Each folder becomes an expanded child in order and is walked; the walk's error is dropped. |
| TreeWalk.SortedPlanOrder | fstree/fs.go:33-66 | In the sorted plan no name starts with '.', no file follows a folder, and an entry is expanded exactly when it is a folder. |
| TreeWalk.FilesExact | fstree/fs.go:33-43 | An entry is among the files or folders exactly when it is listed and not hidden, by its kind. |
| TreeWalk.WalkPlain | fs.go:17-59 | Nil gives NilNode and a node with children HasChildren, unchanged. An unreadable path gives ReadDirFailed. Otherwise the entries are added in listing order with no dot filtering and all expanded false. The first error from a sub-walk is returned at once: the children added so far are a prefix of the plan and stay attached, and on success they are the whole plan. The walk succeeds exactly when every folder it reaches can be listed. |
| TreeWalk.WalkEntries | fs.go:30-58 | The entry loop adds one child per entry and stops at the first failing sub-walk, its error returned; the children so far match the plan's prefix. It succeeds, with the whole plan hung and built, exactly when every folder reached can be listed. |
| TreeWalk.EntryTurn | fs.go:30-55 | One turn adds the node of the next entry; success means that entry and all before it were readable, failure that the directory is not. |
| TreeWalk.HangEntry | fs.go:31-55 | The entry's node is hung with its joined path, kind and expanded false; it succeeds exactly when the entry is a file or a folder that can be walked in full. |
| TreeWalk.PlantSorted | internal/ui/fstree/model.go:228-234 | A fresh expanded root at the path, walked by the sorted policy, with every node built to plan. |
| TreeWalk.PlantPlain | fstree.go:228-234 | A fresh expanded root at the path, walked by the plain policy; an unreadable path leaves it childless. When every folder reached can be listed, the root has the whole plan and every node is built to plan. |
| Gateway.CreateFileStep | internal/filesystem/fs.go:8-18 | Success exactly when the path is non-empty, absent and the write succeeds. Then exactly that path is added, holding the given bytes. A rejected call changes nothing. A failed write keeps every old entry and may leave the file behind, holding a prefix of the bytes. |
| Gateway.CreateFolderStep | internal/filesystem/fs.go:20-30 | Success exactly when the path is non-empty, absent and the mkdir succeeds. Then exactly that path is added as a directory. A rejected call or a failed mkdir changes nothing. |
| Gateway.DeletePathStep | internal/filesystem/fs.go:32-42 | Success exactly when the path is non-empty, present and the removal succeeds. Then the path and everything beneath it are gone and the rest is unchanged. A rejected call changes nothing. A failed removal loses only entries beneath the path, and every survivor keeps its contents. |
| Gateway.DeleteFileStep | fstree/fs.go:96-114 | Success exactly when the path is non-empty and a regular file, and the removal succeeds. Then just that entry goes. A rejected call or a failed removal changes nothing. |
| Gateway.DeleteFolderStep | fstree/fs.go:116-134 | Success exactly when the path is non-empty and a directory, and the removal succeeds. Then the folder and its whole subtree go, and every other entry keeps its contents. A rejected call changes nothing. A failed removal loses only entries beneath the path. |
| Gateway.CreateThenDeleteFile | fstree/fs.go:72-114 | Creating a file and then deleting it restores the disk exactly. |
| Gateway.Without | internal/filesystem/fs.go:37 | Removing everything beneath a path keeps exactly the entries outside it, with their values. |
| Gateway.Disk.constructor | internal/filesystem/fs.go:8 | The disk starts with the given entries. |
| Gateway.Disk.CreateFile | internal/filesystem/fs.go:8-18 | The method's outcome and new entries are the CreateFileStep of the old entries. |
| Gateway.Disk.CreateFolder | internal/filesystem/fs.go:20-30 | The method's outcome and new entries are the CreateFolderStep of the old entries. |
| Gateway.Disk.DeletePath | internal/filesystem/fs.go:32-42 | The method's outcome and new entries are the DeletePathStep of the old entries. |
| Gateway.Disk.DeleteFile | fstree/fs.go:96-114 | The method's outcome and new entries are the DeleteFileStep of the old entries. |
| Gateway.Disk.DeleteFolder | fstree/fs.go:116-134 | The method's outcome and new entries are the DeleteFolderStep of the old entries. |
| Slices.FirstIndex | utils.go:5-6 | The index of the first element equal to the item, or -1 exactly when it is absent. |
| Slices.RemoveFromSlice | utils.go:4-11 | The loop's result is the slice with its first occurrence of the item removed. |
| Slices.RemoveFirstAbsent | utils.go:10 | An absent item leaves the slice unchanged. |
| Slices.RemoveFirstAt | utils.go:7 | At the first occurrence i, the result is s[..i] + s[i+1..]. |
| Slices.RemoveFirstKeepsOrder | utils.go:5-8 | A present item is removed at its first index, the others keep their order and later duplicates survive. |
| Slices.RemoveFirstMultiset | utils.go:7 | A present item makes the result one shorter with exactly one copy of it fewer. |
| Slices.RemoveFirstDistinct | utils.go:4-11 | On a list without repeats, the result has no repeats, lacks the item and keeps every other element. |
| Paths.Join | internal/ui/fstree/model.go:439 | The joined path is longer than the directory and ends with the non-empty name. |
| Paths.BaseOfJoin | internal/ui/fstree/model.go:44-45 | The base of Join(dir, name) is name, for a non-empty, slash-free name. |
| Paths.TrimSuffix | internal/ui/fstree/model.go:47 | With the suffix present, the result plus the suffix is the string; otherwise the string is kept. |
| NoteText.TrimSpace | notes/notes.go:103 | The result is the middle slice of the input, starting at the leading white space, ending before the trailing white space, and neither starting nor ending with one of the six ASCII spaces. |
| NoteText.TrimSpaceAround | internal/ui/note/model.go:274 | Trimming white space around a trimmed middle gives that middle. |
| NoteText.TrimSpaceIdempotent | notes/notes.go:103 | Trimming twice is trimming once. |
| NoteText.SplitLines | notes/notes.go:91 | Splitting at '\n' gives at least one line and no line holds a newline. |
| NoteText.JoinSplit | notes/notes.go:91-98 | Joining the split lines with '\n' gives the text back. |
| NoteText.SplitJoin | notes/notes.go:91-98 | Splitting the join of newline-free lines gives those lines back. |
| NoteText.FirstLinePrefix | notes/notes.go:96 | The first line starts with a newline-free prefix exactly when the text does. |
| NoteFile.NewNote | notes/notes.go:33-38 | A new note has the path, is loading and shows nothing. |
| NoteFile.PlaceholderHints | notes/notes.go:113-116 | This file's hint extractor always gives no hints. |
| NoteFile.FetchContent | notes/notes.go:83-111 | A failed read gives only the error. Otherwise there is no error and no hints, the title holds no newline, and the content is trimmed. |
| NoteFile.HeadedNote | notes/notes.go:96-103 | A text "# " + title + "\n" + body gives that title and the trimmed body. |
| NoteFile.TitleOnlyNote | notes/notes.go:91-103 | A text that is only "# " + title, with no newline, gives that title and empty content. |
| NoteFile.UntitledNote | notes/notes.go:93-103 | A text not starting with "# " gives no title and the whole trimmed text as content. |
| NoteFile.OnContentFetched | notes/notes.go:46-52 | The fetched message ends loading and copies title, content, hints and error; the path is kept. |
| NoteHints.ExtractHints | internal/ui/note/model.go:313-325 | The loop gives `HintsOf(content)`, the hints of the successive leftmost matches, in order. |
| NoteHints.NextMatchLeftmost | internal/ui/note/model.go:314 | The found match starts at the earliest position where a match exists; no match means none starts at or after the position. |
| NoteHints.NextMatchIs | internal/ui/note/model.go:314 | A match at k with none before it is the one found. |
| NoteHints.CloseFromEarliest | internal/ui/note/model.go:314 | The lazy group ends at the earliest closing delimiter. |
| NoteHints.HintsStep | internal/ui/note/model.go:316-323 | Hint extraction is the first match's hint followed by the hints of the text after that match: matches do not overlap. |
| NoteHints.HintsNonEmpty | internal/ui/note/model.go:318-322 | No hint is empty: empty spans are consumed but give nothing. |
| NoteHints.PlainHasNoHints | internal/ui/note/model.go:313-325 | A text without a pair of delimiters has no hints. |
| NoteHints.SpanHint | internal/ui/note/model.go:313-325 | Plain text, then a delimited span without the delimiter, then more text, gives the span's text (when non-empty) followed by the rest's hints. |
| NoteHints.SampleSingle | internal/ui/note/model_test.go:15-19 | "This is a **hint**." gives ["hint"]. |
| NoteHints.SampleTwoBold | internal/ui/note/model_test.go:20-24 | "**one** and **two**" gives ["one", "two"]. |
| NoteHints.SampleTwoUnderscore | internal/ui/note/model_test.go:25-29 | "__one__ and __two__" gives ["one", "two"]. |
| NoteHints.SampleMixed | internal/ui/note/model_test.go:30-34 | "**one** and __two__" gives ["one", "two"]. |
| NoteHints.SamplePlain | internal/ui/note/model_test.go:35-39 | "just plain text" gives no hints. |
| NoteSections.MakeSection | internal/ui/note/model.go:272-283 | A section has the title, the trimmed text and that text's hints. |
| NoteSections.Step | internal/ui/note/model.go:259-286 | A heading that counts sets the title to its trimmed text and moves lastPos to its end. A section of the text before it is emitted only when lastPos < headingStart; anything else changes nothing. |
| NoteSections.ParseSections | internal/ui/note/model.go:251-301 | The loop over the blocks gives `Sections(source, blocks)`. |
| NoteSections.SectionBound | internal/ui/note/model.go:251-301 | There is at most one section per counted heading, plus one. |
| NoteSections.SectionsTrimmed | internal/ui/note/model.go:272-298 | Every section's content is trimmed and its hints are those of its content. |
| NoteSections.SectionTitles | internal/ui/note/model.go:256-285 | Every title is "no title" or the trimmed text of one of the headings. |
| NoteSections.NoHeadings | internal/ui/note/model.go:256-298 | Without headings a non-empty note is one section "no title" of the whole trimmed text. |
| NoteSections.EmptyNote | internal/ui/note/model.go:288-300 | An empty note has no sections. |
| NotePane.NextView | internal/ui/note/model.go:138-146 | The space key always changes the view. |
| NotePane.ViewCycle | internal/ui/note/model.go:138-146 | The view cycles TitleOnly, Hints, Content with period exactly three. |
| NotePane.Initial | internal/ui/note/model.go:91-99 | A new pane has no path, is not loading or editing, shows the title only, and its index is in range. |
| NotePane.OnKey | internal/ui/note/model.go:118-171 | A key keeps the index in range and moves it by at most one, leaving path, text, sections and loading alone. Editing starts only on enter with a path and not loading, and ends only on esc/ctrl+q, which always end it. The view changes only on space, to the next view; the index changes only on left/a/right/d, and never while editing. Conversely, while editing any other key changes nothing; otherwise enter on a loaded path starts editing, space always moves to the next view, and left/a and right/d step when a section lies that way. |
| NotePane.OnLoadNote | internal/ui/note/model.go:173-181 | The loaded path without force is a no-op. Otherwise it takes the path, starts loading, stops editing and goes to section 0, keeping the rest. |
| NotePane.OnLoaded | internal/ui/note/model.go:183-192 | Loading ends, the text, sections and error are taken and the pane shows section 0 title-only. |
| NotePane.KeysKeepIndex | internal/ui/note/model.go:154-167 | After any keys the index stays within [0, max(0, sections - 1)]. |
| NotePane.SpaceThrice | internal/ui/note/model.go:138-147 | Three spaces restore the pane. |
| NotePane.StepBack | internal/ui/note/model.go:154-167 | Right then left, or left then right away from the ends, restores the pane. |
| NotePane.LoadIdempotent | internal/ui/note/model.go:173-176 | Asking twice for the same note is asking once. |
| NotePane.LoadThenLoaded | internal/ui/note/model.go:173-190 | A load request and its answer show the requested note's first section title-only; editing survives only an ignored request. |
| NotePane.NoteView.constructor | internal/ui/note/model.go:91-99 | The fresh pane's state is `Initial()`. |
| NotePane.NoteView.Key | internal/ui/note/model.go:118-171 | The pane's new state is `OnKey` of the old. |
| NotePane.NoteView.LoadNote | internal/ui/note/model.go:173-181 | The pane's new state is `OnLoadNote` of the old (the copy in notes.go has no force flag). |
| NotePane.NoteView.Loaded | internal/ui/note/model.go:183-192 | The pane's new state is `OnLoaded` of the old. |
| Search.Lower | internal/search/engine.go:128-133 | Lowering keeps the length. |
| Search.IndexFirst | internal/search/engine.go:136 | `strings.Index` gives the first occurrence, and -1 exactly when there is none. |
| Search.WordMatchBetween | internal/search/engine.go:183-190 | A query with a space, newline or either end on both sides is a word match. |
| Search.WordMatchJoined | internal/search/engine.go:183-190 | A query touching any other character on either side is not a word match. |
| Search.SampleWordMatches | internal/search/engine_test.go:18-23 | The test table: "hello world", "the hello world" and "say hello" match; "helloworld", "worldhello" and "my_hello_world" do not. |
| Search.WidenLeft | internal/search/engine.go:204-206 | The start moves left to the nearest space or newline at or before it, or to 0. |
| Search.WidenRight | internal/search/engine.go:207-209 | The end moves right to the nearest space or newline at or after it, or to the end. |
| Search.NewlinesToSpaces | internal/search/engine.go:212 | Replacing newlines keeps the length and leaves none. |
| Search.ExtractSnippet | internal/search/engine.go:193-225 | The loop gives `Snippet`: the window [max(0, pos-ctx), min(len, pos+ctx)] widened to spaces, trimmed, newlines turned to spaces, with "..." before exactly when it starts after 0 and after exactly when it ends before the end. |
| Search.SnippetShowsMatch | internal/search/engine.go:193-225 | A space-free match no longer than the context appears in its snippet. |
| Search.SnippetOneLine | internal/search/engine.go:211-224 | A snippet holds no newline. |
| Search.ResultCases | internal/search/engine.go:131-173 | An entry yields a result exactly when its name, or a file's content, contains the query. A name match has no snippet, the entry's kind, and score 200 exactly for an equal name, else 150 or 100; a content-only match is a file scoring 30 or 10. |
| Search.MatchEntry | internal/search/engine.go:131-173 | The loop body's result for one entry is `ResultFor`. |
| Search.CandidatesBound | internal/search/engine.go:131-174 | At most one result per entry, each a name match or a file content match. |
| Search.InsertByScore | internal/search/engine.go:176-178 | Inserting keeps the list in non-increasing score order and adds exactly that result. |
| Search.SortByScore | internal/search/engine.go:176-178 | The sorted list is in non-increasing score order and a permutation of the input. |
| Search.SearchEngine.constructor | internal/search/engine.go:41-45 | A new engine has no entries and is not indexing. |
| Search.SearchEngine.Search | internal/search/engine.go:121-180 | An empty query or indexing gives nil; otherwise the results are the entries' matches, sorted by non-increasing score, as a permutation. |
| Layout.CalculateLayout | layout.go:12-42 | The tree is at least 5 columns and the note pane never negative. A positive note pane, the divider and the tree fill the terminal exactly, and a tree above its minimum leaves the note pane its 10 columns. |
| Layout.LayoutBounds | layout.go:27-39 | The tree is never narrower than 5, because that clamp runs last, and the note pane is never negative. |
| Layout.LayoutFills | layout.go:24-34 | For total >= 16 the two widths and the divider fill the terminal, the note pane keeps 10 columns and the tree at most total - 11. |
| Layout.LayoutKeepsRequest | layout.go:18-29 | An allowed request is kept, and an unset one is a quarter of the terminal when that is allowed. |
| Layout.HoverArea | layout.go:45-47 | The divider is hovered exactly on the five columns d-2 .. d+2. |
| Compositor.Grid.constructor | compositor/compositor.go:34-47 | The grid has the given size and every cell is a space with no style. |
| Compositor.BlankRender | compositor/compositor.go:115-152 | A blank grid renders each row as its spaces followed by one reset. |
| Compositor.Grid.Draw | compositor/compositor.go:98-107 | A drawn rune takes its cell with the style, the following rw - 1 cells in the row become the pad character, and nothing else changes. |
| Compositor.Grid.Write | compositor/compositor.go:53-112 | The new cells are `Run` of the old ones from (startX, startY) with no style, storing a rune under the corrected guard of ## Findings (`x < Width && x + rw <= Width`). |
| Compositor.Grid.WriteStep | compositor/compositor.go:57-111 | One step consumes a style sequence, a newline or a rune and leaves the rest of the run to do the same. |
| Compositor.Grid.WriteChar | compositor/compositor.go:95-110 | A rune is stored when it fits, under the corrected guard of ## Findings (`x < Width && x + rw <= Width`), and the column always advances by its width. |
| Compositor.SgrAt | compositor/compositor.go:65-84 | At an ESC with a later 'm', the run up to that 'm' is a style sequence exactly when it contains an SGR match, and its length is returned; otherwise 0. |
| Compositor.SgrLength | compositor/compositor.go:65-84 | A consumed sequence starts with ESC, ends at the first 'm' and contains an SGR match. |
| Compositor.SgrEnd | compositor/compositor.go:67-72 | The scan finds the first 'm' after i, or -1. |
| Compositor.RunKeepsOutside | compositor/compositor.go:53-112 | Writing never changes a cell above the start row or left of startX. It never touches a row >= Height, which follows from the shape. |
| Compositor.RunLine | compositor/compositor.go:95-107 | Plain one-column text overwrites its row from x with the style, clipped at the width. |
| Compositor.RunStyled | compositor/compositor.go:65-84 | A leading SGR sequence writes nothing and becomes the current style. |
| Compositor.UnanchoredStyle | compositor/compositor.go:78 | The test is unanchored: a run that is not itself an SGR sequence but contains one is still taken for a style. |
| Compositor.RunNewline | compositor/compositor.go:87-92 | A newline writes nothing and moves to startX of the next row. |
| Compositor.Grid.Render | compositor/compositor.go:115-152 | The output is `Rendered` of the cells: each row rendered, joined by '\n', with no trailing newline. |
| Compositor.Grid.RenderRowAt | compositor/compositor.go:119-146 | A row's output skips pad cells, emits a reset plus the new style only where the style changes, and ends with a reset. |
| Compositor.PrefixStep | compositor/compositor.go:123-143 | Each cell adds nothing (pad), its character (same style), a reset and the character (style ""), or a reset, the style and the character. |
| Compositor.PlainRow | compositor/compositor.go:123-143 | An unstyled row without pads renders as its characters. |
| Compositor.OneStyleRow | compositor/compositor.go:123-146 | A row in one style renders as reset, style, the characters and a reset. |
| Compositor.RenderLines | compositor/compositor.go:115-152 | When no cell holds a newline, splitting the output at '\n' gives back the rendered rows. |
| Compositor.ZeroWidthAtEdge | compositor/compositor.go:98-99 | As written, the guard admits a zero-width rune at x == Width, which then indexes past the row. |
| Compositor.FitsInRow | compositor/compositor.go:98-106 | With the corrected guard, x and every padded cell are inside the row, and the guard implies the original one. |

## Left out

- Input and output: reading directories and files, the asynchronous commands and `StartIndexing`. Directory listings, file texts and the indexed entries are inputs. How the final OS call ends is the `os` parameter (`Gateway.OsCall`). For a failed call, the parameter also says how far `os.WriteFile` or `os.RemoveAll` got.
- The Bubble Tea messages that are not state changes above: the `Init`/`View` methods, `renderNode`, `renderNote` and styling. Also left out are `NodeSelectedMsg` emission, the error message fields, `PerformAction` and the key dispatch tables beyond the transitions modelled.
- The note viewport, the text area, `saveContent` and `GetSelectedContent`.
- main.go and internal/ui/search/model.go: event-loop glue and UI.
- The Markdown parser: `ParseSections` takes the top-level blocks with their line spans as input. The heading offsets are the ATX arithmetic of the source (section 4.2 of CommonMark), applied to every heading block. `NoteSections.Placed` excludes only a heading whose computed slice would fall outside the note, which is where Go's slice would panic. A Setext heading whose offsets land inside the note is modelled as written: its title is the slice that arithmetic gives.
- The two-heading sample test of `ParseSections`: it depends on the parser's output.
- The regular-expression engine: the hint pattern is stated directly as a leftmost-first scanner.
- `runewidth.RuneWidth` is the parameter `widthOf`.
- `strings.ToLower` is ASCII only.
- NoteText.TrimSpace: trims only the six ASCII spaces. Go's `strings.TrimSpace` also decodes UTF-8 and trims multi-byte Unicode spaces, such as U+0085 (C2 85) and U+00A0 (C2 A0); the model keeps those bytes. A text whose ends are ASCII is trimmed as in Go.
- The note and search code is modelled one character per byte, so byte offsets are positions. The compositor works on runes instead, one character per rune, as `Write` converts its content with `[]rune`.
- `filepath.Join` is directory + "/" + name, with no cleaning.
- Search.SortByScore: Go's sort is not stable, so only the non-increasing order and the permutation are stated; tie order is unspecified.
- Search.SearchEngine.Search: Go's nil slice is `None`.
- Go's truncating `/` is written out as `GoArith.Quo` where it is used: the layout clamp and the viewport's half height in `LineTree.ViewportBounds` (internal/ui/fstree/model.go:184, fstree.go:184).
- Compositor.Grid.Write: the loop body is split into `WriteStep`/`WriteChar`, and Render's row loop into `RenderRowAt`.
- The test assertions at fstree/fstree_test.go:95-97 and 232-235 expect new nodes not expanded. They contradict fstree/fstree.go:87, which the model follows.
- NavTree.FsTree.MoveUp: reproduced as written. From the first visible node it descends into that node's own expanded subtree rather than staying.
- In the line-addressed tree, a file target without a parent (the root is always a folder) is not reachable, so that nil dereference of `CreateNode` is not modelled.

## Findings

| source | as written | input that shows it | evidently intended | confidence | as-written member | corrected member |
|---|---|---|---|---|---|---|
| compositor/compositor.go:98-99 | a rune is stored when `x + rw <= Width`, then `Rows[y][x]` is written | a grid one column wide and `Write(0, 0, "a\u0301")`: after "a", x == 1 and the combining mark has width 0, so 1 + 0 <= 1 passes and column 1 is written, out of range | also require `x < Width` | not executed | Compositor.ZeroWidthAtEdge | Compositor.FitsInRow |
