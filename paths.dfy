/** A simple string model of the path helpers the tree uses
    (`filepath.Join`, `filepath.Base`, `strings.HasPrefix/HasSuffix/TrimSuffix`).
    Path cleaning (`..`, `.`, repeated separators) is not modelled. */
module Paths {

  predicate HasPrefix(s: string, prefix: string) {
    |prefix| <= |s| && s[..|prefix|] == prefix
  }

  predicate HasSuffix(s: string, suffix: string) {
    |suffix| <= |s| && s[|s| - |suffix|..] == suffix
  }

  function TrimSuffix(s: string, suffix: string): (r: string)
    ensures HasSuffix(s, suffix) ==> r + suffix == s
    ensures !HasSuffix(s, suffix) ==> r == s
  {
    if HasSuffix(s, suffix) then s[..|s| - |suffix|] else s
  }

  predicate NoSlash(name: string) {
    forall i | 0 <= i < |name| :: name[i] != '/'
  }

  /** `filepath.Join(dir, name)` for an already clean `dir` and a single element `name`. */
  function Join(dir: string, name: string): (p: string)
    ensures name != "" ==> |p| > |dir|
    ensures name != "" ==> HasSuffix(p, name)
  {
    if dir == "" then name
    else if name == "" then dir
    else if dir[|dir| - 1] == '/' then dir + name
    else dir + "/" + name
  }

  function TrimTrailingSlashes(s: string): (r: string)
    ensures |r| <= |s| && r == s[..|r|]
    ensures r == "" || r[|r| - 1] != '/'
  {
    if |s| > 0 && s[|s| - 1] == '/' then TrimTrailingSlashes(s[..|s| - 1]) else s
  }

  /** The characters after the last '/' of `s` (all of `s` when it has none). */
  function AfterLastSlash(s: string): (r: string)
    ensures NoSlash(r)
    ensures s != "" && s[|s| - 1] != '/' ==> r != ""
  {
    if s == "" then ""
    else if s[|s| - 1] == '/' then ""
    else AfterLastSlash(s[..|s| - 1]) + [s[|s| - 1]]
  }

  /** `filepath.Base` on a Unix system: "." for "", "/" for a path of separators only,
      otherwise the last element once trailing separators are removed. */
  function Base(path: string): (r: string)
    ensures r != "" && (r == "/" || NoSlash(r))
    ensures path == "" ==> r == "."
  {
    if path == "" then "."
    else
      var t := TrimTrailingSlashes(path);
      if t == "" then "/" else AfterLastSlash(t)
  }

  lemma {:induction false} AfterLastSlashOfTail(a: string, n: string)
    requires a == "" || a[|a| - 1] == '/'
    requires NoSlash(n)
    ensures AfterLastSlash(a + n) == n
    decreases |n|
  {
    if n == "" {
      assert a + n == a;
    } else {
      var m := n[..|n| - 1];
      assert (a + n)[..|a + n| - 1] == a + m;
      AfterLastSlashOfTail(a, m);
      assert m + [n[|n| - 1]] == n;
    }
  }

  /** Base undoes Join for a single, slash-free element. */
  lemma {:induction false} BaseOfJoin(dir: string, name: string)
    requires name != "" && NoSlash(name)
    ensures Base(Join(dir, name)) == name
  {
    var p := Join(dir, name);
    assert p[|p| - 1] == name[|name| - 1];
    assert TrimTrailingSlashes(p) == p;
    if dir == "" {
      AfterLastSlashOfTail("", name);
      assert "" + name == name;
    } else if dir[|dir| - 1] == '/' {
      AfterLastSlashOfTail(dir, name);
    } else {
      AfterLastSlashOfTail(dir + "/", name);
      assert dir + "/" + name == (dir + "/") + name;
    }
  }
}
