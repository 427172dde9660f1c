/** The filesystem gateway (internal/filesystem/fs.go and the create/delete helpers of
    fstree/fs.go), modelled over an abstract map from path to entry. How the final
    operating-system call ends is a parameter `os`: the model does not see the disk. */
module Gateway {
  import opened Outcomes
  import Paths

  datatype Entry = RegularFile(content: seq<bv8>) | Directory
  type Entries = map<string, Entry>

  /** How the final system call ended. `os.Mkdir` and `os.Remove` fail without effect,
      but a failed call may leave part of its work done:
      - `os.WriteFile` opens the file with O_CREATE|O_TRUNC before it writes, so a failed
        write may leave the file holding only the bytes that reached it (`written`;
        None when the file was never opened);
      - `os.RemoveAll` removes what it can before it returns its first error (`removed`
        holds the entries it got to). */
  datatype OsCall = Done | Failed(written: Option<nat>, removed: set<string>)

  /** The result of one gateway call: the error it returns and the filesystem after it. */
  datatype Step = Step(outcome: Outcome, after: Entries)

  /** `p` lies in the subtree rooted at `root` (RemoveAll's reach). */
  predicate Beneath(root: string, p: string) {
    p == root || Paths.HasPrefix(p, root + "/")
  }

  function Without(e: Entries, root: string): (r: Entries)
    ensures forall q :: q in r <==> q in e && !Beneath(root, q)
    ensures forall q | q in r :: r[q] == e[q]
  {
    map q | q in e && !Beneath(root, q) :: e[q]
  }

  /** What a RemoveAll of `root` that stopped early leaves: the entries beneath `root`
      that it reached are gone. */
  function PartlyWithout(e: Entries, root: string, reached: set<string>): Entries
  {
    map q | q in e && !(Beneath(root, q) && q in reached) :: e[q]
  }

  /** What a WriteFile of `content` to the absent `path` that failed leaves. */
  function PartlyWritten(e: Entries, path: string, content: seq<bv8>, written: Option<nat>): Entries
  {
    match written
    case None => e
    case Some(k) => e[path := RegularFile(if k <= |content| then content[..k] else content)]
  }

  /** CreateFile / createFile: refuse an empty or existing path, then write the bytes. */
  function CreateFileStep(e: Entries, path: string, content: seq<bv8>, os: OsCall): (r: Step)
    ensures r.outcome.Fail? && r.outcome != Fail(OsFailure) ==> r.after == e
    ensures r.outcome == Ok <==> path != "" && path !in e && os.Done?
    ensures r.outcome == Ok ==>
      r.after.Keys == e.Keys + {path} && r.after[path] == RegularFile(content) &&
      forall q | q in e :: r.after[q] == e[q]
    ensures r.outcome == Fail(OsFailure) ==>
      r.after.Keys <= e.Keys + {path} && (forall q | q in e :: q in r.after && r.after[q] == e[q]) &&
      (path in r.after ==> r.after[path].RegularFile? && r.after[path].content <= content)
  {
    if path == "" then Step(Fail(EmptyPath), e)
    else if path in e then Step(Fail(AlreadyExists), e)
    else if os.Failed? then Step(Fail(OsFailure), PartlyWritten(e, path, content, os.written))
    else Step(Ok, e[path := RegularFile(content)])
  }

  /** CreateFolder / createFolder: as CreateFile, but makes a directory. */
  function CreateFolderStep(e: Entries, path: string, os: OsCall): (r: Step)
    ensures r.outcome.Fail? ==> r.after == e
    ensures r.outcome == Ok <==> path != "" && path !in e && os.Done?
    ensures r.outcome == Ok ==>
      r.after.Keys == e.Keys + {path} && r.after[path] == Directory &&
      forall q | q in e :: r.after[q] == e[q]
  {
    if path == "" then Step(Fail(EmptyPath), e)
    else if path in e then Step(Fail(AlreadyExists), e)
    else if os.Failed? then Step(Fail(OsFailure), e)
    else Step(Ok, e[path := Directory])
  }

  /** DeletePath: refuse an empty or missing path, then remove it and everything beneath it. */
  function DeletePathStep(e: Entries, path: string, os: OsCall): (r: Step)
    ensures r.outcome.Fail? && r.outcome != Fail(OsFailure) ==> r.after == e
    ensures r.outcome == Ok <==> path != "" && path in e && os.Done?
    ensures r.outcome == Ok ==>
      path !in r.after &&
      (forall q :: q in r.after <==> q in e && !Beneath(path, q)) &&
      forall q | q in r.after :: r.after[q] == e[q]
    ensures r.outcome == Fail(OsFailure) ==>
      (forall q | q in e && !Beneath(path, q) :: q in r.after) &&
      forall q | q in r.after :: q in e && r.after[q] == e[q]
  {
    if path == "" then Step(Fail(EmptyPath), e)
    else if path !in e then Step(Fail(NotFound), e)
    else if os.Failed? then Step(Fail(OsFailure), PartlyWithout(e, path, os.removed))
    else Step(Ok, Without(e, path))
  }

  /** deleteFile of fstree/fs.go: only a present regular file is removed, and only it. */
  function DeleteFileStep(e: Entries, path: string, os: OsCall): (r: Step)
    ensures r.outcome.Fail? ==> r.after == e
    ensures r.outcome == Ok <==> path != "" && path in e && e[path].RegularFile? && os.Done?
    ensures r.outcome == Ok ==> r.after == map q | q in e && q != path :: e[q]
  {
    if path == "" then Step(Fail(EmptyPath), e)
    else if path !in e then Step(Fail(NotFound), e)
    else if e[path].Directory? then Step(Fail(IsDirectory), e)
    else if os.Failed? then Step(Fail(OsFailure), e)
    else Step(Ok, e - {path})
  }

  /** deleteFolder of fstree/fs.go: only a present directory is removed, with its contents. */
  function DeleteFolderStep(e: Entries, path: string, os: OsCall): (r: Step)
    ensures r.outcome.Fail? && r.outcome != Fail(OsFailure) ==> r.after == e
    ensures r.outcome == Ok <==> path != "" && path in e && e[path].Directory? && os.Done?
    ensures r.outcome == Ok ==>
      path !in r.after && forall q :: q in r.after <==> q in e && !Beneath(path, q)
    ensures r.outcome == Fail(OsFailure) ==> forall q | q in e && !Beneath(path, q) :: q in r.after
    ensures forall q | q in r.after :: q in e && r.after[q] == e[q]
  {
    if path == "" then Step(Fail(EmptyPath), e)
    else if path !in e then Step(Fail(NotFound), e)
    else if e[path].RegularFile? then Step(Fail(IsRegularFile), e)
    else if os.Failed? then Step(Fail(OsFailure), PartlyWithout(e, path, os.removed))
    else Step(Ok, Without(e, path))
  }

  /** A fresh file can be deleted again, and deleting it restores the filesystem
      the file was created in. */
  lemma {:induction false} CreateThenDeleteFile(e: Entries, path: string, content: seq<bv8>)
    requires CreateFileStep(e, path, content, Done).outcome == Ok
    ensures var mid := CreateFileStep(e, path, content, Done).after;
      DeleteFileStep(mid, path, Done) == Step(Ok, e)
  {
    var mid := CreateFileStep(e, path, content, Done).after;
    assert mid - {path} == e;
  }

  /** The filesystem the tree's file operations touch. */
  class Disk {
    var entries: Entries

    constructor (initial: Entries)
      ensures entries == initial
    {
      entries := initial;
    }

    method CreateFile(path: string, content: seq<bv8>, os: OsCall) returns (err: Outcome)
      modifies this
      ensures Step(err, entries) == CreateFileStep(old(entries), path, content, os)
    {
      if path == "" {
        return Fail(EmptyPath);
      }
      if path in entries {
        return Fail(AlreadyExists);
      }
      if os.Failed? {
        entries := PartlyWritten(entries, path, content, os.written);
        return Fail(OsFailure);
      }
      entries := entries[path := RegularFile(content)];
      err := Ok;
    }

    method CreateFolder(path: string, os: OsCall) returns (err: Outcome)
      modifies this
      ensures Step(err, entries) == CreateFolderStep(old(entries), path, os)
    {
      if path == "" {
        return Fail(EmptyPath);
      }
      if path in entries {
        return Fail(AlreadyExists);
      }
      if os.Failed? {
        return Fail(OsFailure);
      }
      entries := entries[path := Directory];
      err := Ok;
    }

    method DeletePath(path: string, os: OsCall) returns (err: Outcome)
      modifies this
      ensures Step(err, entries) == DeletePathStep(old(entries), path, os)
    {
      if path == "" {
        return Fail(EmptyPath);
      }
      if path !in entries {
        return Fail(NotFound);
      }
      if os.Failed? {
        entries := PartlyWithout(entries, path, os.removed);
        return Fail(OsFailure);
      }
      entries := Without(entries, path);
      err := Ok;
    }

    method DeleteFile(path: string, os: OsCall) returns (err: Outcome)
      modifies this
      ensures Step(err, entries) == DeleteFileStep(old(entries), path, os)
    {
      if path == "" {
        return Fail(EmptyPath);
      }
      if path !in entries {
        return Fail(NotFound);
      }
      if entries[path].Directory? {
        return Fail(IsDirectory);
      }
      if os.Failed? {
        return Fail(OsFailure);
      }
      entries := entries - {path};
      err := Ok;
    }

    method DeleteFolder(path: string, os: OsCall) returns (err: Outcome)
      modifies this
      ensures Step(err, entries) == DeleteFolderStep(old(entries), path, os)
    {
      if path == "" {
        return Fail(EmptyPath);
      }
      if path !in entries {
        return Fail(NotFound);
      }
      if entries[path].RegularFile? {
        return Fail(IsRegularFile);
      }
      if os.Failed? {
        entries := PartlyWithout(entries, path, os.removed);
        return Fail(OsFailure);
      }
      entries := Without(entries, path);
      err := Ok;
    }
  }
}
