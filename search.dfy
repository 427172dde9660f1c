/** The exact-match note search of internal/search/engine.go: every indexed entry is
    matched against the query by name first and, for files, by content; matches on a
    word boundary score higher; the results come ordered by score. Indexing the
    notes directory is not modelled: the entries are the engine's state. */
module Search {
  import opened Outcomes
  import opened NoteText

  /** How many bytes of context a snippet takes on each side of a match. */
  const DefaultContextLen := 40

  /** One indexed entry (`fileEntry`); the content of a file is already lower-cased. */
  datatype FileEntry = FileEntry(path: string, relativePath: string, fileName: string, content: string, isFolder: bool)

  /** One search match (`SearchResult`). */
  datatype SearchResult = SearchResult(
    path: string, relativePath: string, fileName: string, snippet: string, score: int, isFolder: bool)

  /** `strings.ToLower` on ASCII letters. */
  function LowerChar(c: char): char {
    if 'A' <= c <= 'Z' then (c as int + 32) as char else c
  }

  function Lower(s: string): (r: string)
    ensures |r| == |s|
  {
    seq(|s|, i requires 0 <= i < |s| => LowerChar(s[i]))
  }

  /** `sub` occurs in `s` at position `i`. */
  predicate OccursAt(s: string, sub: string, i: int) {
    0 <= i && i + |sub| <= |s| && s[i..i + |sub|] == sub
  }

  /** The first occurrence of `sub` in `s` at or after `from`, or -1. */
  function IndexFrom(s: string, sub: string, from: nat): (r: int)
    ensures r == -1 || (from <= r && OccursAt(s, sub, r))
    decreases |s| - from
  {
    if from + |sub| > |s| then -1
    else if s[from..from + |sub|] == sub then from
    else IndexFrom(s, sub, from + 1)
  }

  /** `strings.Index`: the first position where `sub` occurs in `s`, or -1. */
  function Index(s: string, sub: string): (r: int)
    ensures r == -1 || OccursAt(s, sub, r)
  {
    IndexFrom(s, sub, 0)
  }

  /** Index finds the first occurrence, and finds one whenever there is one. */
  lemma {:induction false} IndexFirst(s: string, sub: string)
    ensures Index(s, sub) >= 0 ==> forall j | 0 <= j < Index(s, sub) :: !OccursAt(s, sub, j)
    ensures Index(s, sub) == -1 <==> forall j :: !OccursAt(s, sub, j)
  {
    IndexFromFirst(s, sub, 0);
  }

  lemma {:induction false} IndexFromFirst(s: string, sub: string, from: nat)
    ensures IndexFrom(s, sub, from) >= 0 ==> forall j | from <= j < IndexFrom(s, sub, from) :: !OccursAt(s, sub, j)
    ensures IndexFrom(s, sub, from) == -1 <==> forall j | from <= j :: !OccursAt(s, sub, j)
    decreases |s| - from
  {
    if from + |sub| <= |s| && s[from..from + |sub|] != sub {
      IndexFromFirst(s, sub, from + 1);
    }
  }

  /** Index does not look past a first occurrence it is told of. */
  lemma {:induction false} IndexIs(s: string, sub: string, k: nat)
    requires OccursAt(s, sub, k) && forall j | 0 <= j < k :: !OccursAt(s, sub, j)
    ensures Index(s, sub) == k
  {
    IndexFromFirst(s, sub, 0);
  }

  /** Outside `target`, or a space or newline: what separates words. */
  predicate SpaceAt(target: string, pos: int) {
    pos < 0 || pos >= |target| || target[pos] == ' ' || target[pos] == '\n'
  }

  /** `isWordMatch`: the match at `index` is a whole word of `target`. */
  predicate IsWordMatch(query: string, target: string, index: int) {
    SpaceAt(target, index - 1) && SpaceAt(target, index + |query|)
  }

  /** A query standing between separators is a word match; one with a letter, digit
      or underscore directly beside it is not. */
  lemma {:induction false} WordMatchBetween(pre: string, query: string, post: string)
    requires pre == [] || pre[|pre| - 1] == ' ' || pre[|pre| - 1] == '\n'
    requires post == [] || post[0] == ' ' || post[0] == '\n'
    ensures IsWordMatch(query, pre + query + post, |pre|)
  {
    var t := pre + query + post;
    assert pre != [] ==> t[|pre| - 1] == pre[|pre| - 1];
    assert post != [] ==> t[|pre| + |query|] == post[0];
  }

  lemma {:induction false} WordMatchJoined(pre: string, query: string, post: string)
    requires (pre != [] && !(pre[|pre| - 1] == ' ' || pre[|pre| - 1] == '\n'))
          || (post != [] && !(post[0] == ' ' || post[0] == '\n'))
    ensures !IsWordMatch(query, pre + query + post, |pre|)
  {
    var t := pre + query + post;
    assert pre != [] ==> t[|pre| - 1] == pre[|pre| - 1];
    assert post != [] ==> t[|pre| + |query|] == post[0];
  }

  /** The word-match cases of internal/search/engine_test.go. */
  lemma {:induction false} SampleWordMatches()
    ensures IsWordMatch("hello", "hello world", 0)
    ensures IsWordMatch("hello", "the hello world", 4)
    ensures IsWordMatch("hello", "say hello", 4)
    ensures !IsWordMatch("hello", "helloworld", 0)
    ensures !IsWordMatch("hello", "worldhello", 5)
    ensures !IsWordMatch("hello", "my_hello_world", 3)
  {
    WordMatchBetween("", "hello", " world");
    WordMatchBetween("the ", "hello", " world");
    WordMatchBetween("say ", "hello", "");
    WordMatchJoined("", "hello", "world");
    WordMatchJoined("world", "hello", "");
    WordMatchJoined("my_", "hello", "_world");
  }

  /** Where `extractSnippet` stops widening: a space or a newline. */
  predicate Boundary(c: char) {
    c == ' ' || c == '\n'
  }

  /** The snippet's start moved left to the nearest separator at or before it, or to
      the start of the text. */
  function WidenLeft(s: string, start: nat): (k: nat)
    requires start == 0 || start < |s|
    ensures k <= start && (k == 0 || Boundary(s[k]))
    ensures forall j | k < j <= start :: !Boundary(s[j])
    decreases start
  {
    if start > 0 && !Boundary(s[start]) then WidenLeft(s, start - 1) else start
  }

  /** The snippet's end moved right to the nearest separator at or after it, or to the
      end of the text. */
  function WidenRight(s: string, end: nat): (k: nat)
    requires end <= |s|
    ensures end <= k <= |s| && (k == |s| || Boundary(s[k]))
    ensures forall j | end <= j < k :: !Boundary(s[j])
    decreases |s| - end
  {
    if end < |s| && !Boundary(s[end]) then WidenRight(s, end + 1) else end
  }

  /** `strings.ReplaceAll(s, "\n", " ")`. */
  function NewlinesToSpaces(s: string): (r: string)
    ensures |r| == |s| && '\n' !in r
  {
    var r := seq(|s|, i requires 0 <= i < |s| => if s[i] == '\n' then ' ' else s[i]);
    assert forall i | 0 <= i < |r| :: r[i] != '\n';
    r
  }

  /** The first and last byte of the snippet window before the widening. */
  function WindowStart(content: string, pos: int, contextLen: int): nat
    requires 0 <= pos < |content| && 0 <= contextLen
  {
    WidenLeft(content, if pos - contextLen < 0 then 0 else pos - contextLen)
  }

  function WindowEnd(content: string, pos: int, contextLen: int): nat
    requires 0 <= pos < |content| && 0 <= contextLen
  {
    WidenRight(content, if pos + contextLen > |content| then |content| else pos + contextLen)
  }

  /** The snippet around the match at `pos`: the widened window, trimmed and on one
      line, with "..." on each side where text was cut off. */
  function Snippet(content: string, pos: int, contextLen: int): string
    requires 0 <= pos < |content| && 0 <= contextLen
  {
    Decorated(content, WindowStart(content, pos, contextLen), WindowEnd(content, pos, contextLen))
  }

  /** The window `start..end` trimmed and on one line, with "..." on each side where
      text was cut off. */
  function Decorated(content: string, start: nat, end: nat): string
    requires start <= end <= |content|
  {
    (if start > 0 then "..." else "") + NewlinesToSpaces(TrimSpace(content[start..end]))
    + (if end < |content| then "..." else "")
  }

  /** `sub` occurs somewhere in `s`. */
  predicate Contains(s: string, sub: string) {
    exists i | 0 <= i <= |s| :: OccursAt(s, sub, i)
  }

  /** No character of `m` is white space. */
  predicate NoSpace(m: string) {
    forall i | 0 <= i < |m| :: !IsSpace(m[i])
  }

  /** The snippet shows the match: a match of one word, no longer than the context,
      appears whole in the snippet. */
  lemma {:induction false} SnippetShowsMatch(content: string, pos: int, contextLen: int, n: nat)
    requires 0 <= pos < |content| && 0 <= contextLen
    requires 0 < n <= contextLen && pos + n <= |content|
    requires forall i | pos <= i < pos + n :: !IsSpace(content[i])
    ensures Contains(Snippet(content, pos, contextLen), content[pos..pos + n])
  {
    var m := content[pos..pos + n];
    assert NoSpace(m) by {
      assert forall i | 0 <= i < n :: m[i] == content[pos + i];
    }
    var start, end := WindowStart(content, pos, contextLen), WindowEnd(content, pos, contextLen);
    assert start <= pos && pos + n <= end;
    DecoratedShows(content, start, end, pos, n);
  }

  /** A window that holds a word shows it. */
  lemma {:induction false} DecoratedShows(content: string, start: nat, end: nat, pos: nat, n: nat)
    requires start <= pos && 0 < n && pos + n <= end <= |content|
    requires NoSpace(content[pos..pos + n])
    ensures Contains(Decorated(content, start, end), content[pos..pos + n])
  {
    var m := content[pos..pos + n];
    var w := content[start..end];
    SubSlice(content, start, end, pos - start, n);
    var r := TrimSpace(w);
    var c := TrimKeepsWord(w, m, pos - start);
    var b := NewlinesToSpaces(r);
    NewlinesKeepWord(r, m, c);
    var pre := if start > 0 then "..." else "";
    var suf := if end < |content| then "..." else "";
    InMiddle(pre, b, suf, m, c);
    assert Decorated(content, start, end) == pre + b + suf;
    assert OccursAt(pre + b + suf, m, |pre| + c);
  }

  /** Trimming keeps a stretch of non-space text, at the returned position. */
  lemma {:induction false} TrimKeepsWord(w: string, m: string, a: nat) returns (c: nat)
    requires m != [] && NoSpace(m) && OccursAt(w, m, a)
    ensures OccursAt(TrimSpace(w), m, c)
  {
    var lead := LeadingSpaces(w);
    var r := TrimSpace(w);
    var n := |m|;
    assert forall i | 0 <= i < lead :: IsSpace(w[i]) by {
      forall i | 0 <= i < lead ensures IsSpace(w[i]) { assert w[..lead][i] == w[i]; }
    }
    assert forall i | lead + |r| <= i < |w| :: IsSpace(w[i]) by {
      forall i | lead + |r| <= i < |w| ensures IsSpace(w[i]) { assert w[lead + |r|..][i - lead - |r|] == w[i]; }
    }
    assert w[a] == m[0] && w[a + n - 1] == m[n - 1];
    assert !IsSpace(w[a]) && !IsSpace(w[a + n - 1]);
    assert lead <= a && a + n <= lead + |r|;
    c := a - lead;
    SubSlice(w, lead, lead + |r|, c, n);
    assert r == w[lead..lead + |r|];
    assert r[c..c + n] == m;
  }

  /** A slice of a slice is a slice. */
  lemma {:induction false} SubSlice(w: string, lo: nat, hi: nat, c: nat, n: nat)
    requires lo <= hi <= |w| && c + n <= hi - lo
    ensures w[lo..hi][c..c + n] == w[lo + c..lo + c + n]
  {
    var y := w[lo..hi][c..c + n];
    assert forall i | 0 <= i < n :: y[i] == w[lo + c + i];
  }

  /** Replacing newlines keeps a stretch of text that has none. */
  lemma {:induction false} NewlinesKeepWord(r: string, m: string, c: nat)
    requires NoSpace(m) && OccursAt(r, m, c)
    ensures OccursAt(NewlinesToSpaces(r), m, c)
  {
    assert forall i | 0 <= i < |m| :: r[c + i] == m[i];
    assert NewlinesToSpaces(r)[c..c + |m|] == m;
  }

  /** What occurs in the middle of a text occurs in the text. */
  lemma {:induction false} InMiddle(pre: string, b: string, suf: string, m: string, c: nat)
    requires OccursAt(b, m, c)
    ensures OccursAt(pre + b + suf, m, |pre| + c)
  {
    assert (pre + b + suf)[|pre| + c..|pre| + c + |m|] == b[c..c + |m|];
  }

  /** A snippet is one line: its newlines became spaces. */
  lemma {:induction false} SnippetOneLine(content: string, pos: int, contextLen: int)
    requires 0 <= pos < |content| && 0 <= contextLen
    ensures '\n' !in Snippet(content, pos, contextLen)
  {
    var start, end := WindowStart(content, pos, contextLen), WindowEnd(content, pos, contextLen);
    var pre := if start > 0 then "..." else "";
    var suf := if end < |content| then "..." else "";
    var b := NewlinesToSpaces(TrimSpace(content[start..end]));
    assert Snippet(content, pos, contextLen) == pre + b + suf;
    assert '\n' !in pre && '\n' !in suf;
  }

  /** `extractSnippet`. */
  method ExtractSnippet(content: string, pos: int, contextLen: int) returns (snippet: string)
    requires 0 <= pos < |content| && 0 <= contextLen
    ensures snippet == Snippet(content, pos, contextLen)
  {
    var start := pos - contextLen;
    if start < 0 {
      start := 0;
    }
    var end := pos + contextLen;
    if end > |content| {
      end := |content|;
    }
    ghost var start0, end0 := start, end;
    while start > 0 && content[start] != ' ' && content[start] != '\n'
      invariant 0 <= start <= start0 && WidenLeft(content, start) == WidenLeft(content, start0)
      decreases start
    {
      start := start - 1;
    }
    assert WidenLeft(content, start) == start;
    assert start == WindowStart(content, pos, contextLen);
    while end < |content| && content[end] != ' ' && content[end] != '\n'
      invariant end0 <= end <= |content| && WidenRight(content, end) == WidenRight(content, end0)
      decreases |content| - end
    {
      end := end + 1;
    }
    assert WidenRight(content, end) == end;
    assert end == WindowEnd(content, pos, contextLen);
    var middle := TrimSpace(content[start..end]);
    middle := NewlinesToSpaces(middle);
    var prefix, suffix := "", "";
    if start > 0 {
      prefix := "...";
    }
    if end < |content| {
      suffix := "...";
    }
    snippet := prefix + middle + suffix;
    assert snippet == Decorated(content, start, end);
  }

  /** The score of a name match: 200 when the name is the query, 150 when the query
      is a whole word of the name, 100 otherwise. */
  function NameScore(nameLower: string, queryLower: string, pos: int): int {
    100 + (if nameLower == queryLower then 100 else if IsWordMatch(queryLower, nameLower, pos) then 50 else 0)
  }

  /** The score of a content match: 30 on a word boundary, 10 otherwise. */
  function ContentScore(contentLower: string, queryLower: string, pos: int): int {
    10 + (if IsWordMatch(queryLower, contentLower, pos) then 20 else 0)
  }

  /** The result one entry gives for a non-empty lower-cased query: a name match
      first; failing that, for a file, a content match with its snippet. */
  function ResultFor(file: FileEntry, queryLower: string): Option<SearchResult>
    requires queryLower != []
  {
    var nameLower := Lower(file.fileName);
    var matchPos := Index(nameLower, queryLower);
    if matchPos >= 0 then
      Some(SearchResult(file.path, file.relativePath, file.fileName, "",
                        NameScore(nameLower, queryLower, matchPos), file.isFolder))
    else if file.isFolder then None
    else
      var contentLower := Lower(file.content);
      var contentPos := Index(contentLower, queryLower);
      if contentPos < 0 then None
      else
        Some(SearchResult(file.path, file.relativePath, file.fileName,
                          Snippet(file.content, contentPos, DefaultContextLen),
                          ContentScore(contentLower, queryLower, contentPos), false))
  }

  /** An entry has a result exactly when the query occurs in its name or, for a
      file, in its content; a name match carries no snippet and scores 200 exactly
      when the name is the query; a content match is a file's and scores 10 or 30. */
  lemma {:induction false} ResultCases(file: FileEntry, queryLower: string)
    requires queryLower != []
    ensures var r, nameLower := ResultFor(file, queryLower), Lower(file.fileName);
      && (r.Some? <==> Index(nameLower, queryLower) >= 0 || (!file.isFolder && Index(Lower(file.content), queryLower) >= 0))
      && (r.Some? ==> r.value.path == file.path && r.value.relativePath == file.relativePath
                      && r.value.fileName == file.fileName)
      && (r.Some? && Index(nameLower, queryLower) >= 0 ==>
            r.value.snippet == "" && r.value.isFolder == file.isFolder && r.value.score in {100, 150, 200}
            && (r.value.score == 200 <==> nameLower == queryLower))
      && (r.Some? && Index(nameLower, queryLower) < 0 ==> !r.value.isFolder && r.value.score in {10, 30})
  {
  }

  /** The results of the entries, in index order, before sorting. */
  function Candidates(files: seq<FileEntry>, queryLower: string): seq<SearchResult>
    requires queryLower != []
  {
    if files == [] then []
    else
      var last := ResultFor(files[|files| - 1], queryLower);
      Candidates(files[..|files| - 1], queryLower) + (if last.Some? then [last.value] else [])
  }

  /** Each entry gives at most one result, and every result has one of the five
      scores, the high ones for name matches. */
  lemma {:induction false} CandidatesBound(files: seq<FileEntry>, queryLower: string)
    requires queryLower != []
    ensures |Candidates(files, queryLower)| <= |files|
    ensures forall r | r in Candidates(files, queryLower) ::
      (r.score in {100, 150, 200} && r.snippet == "") || (r.score in {10, 30} && !r.isFolder)
  {
    if files != [] {
      CandidatesBound(files[..|files| - 1], queryLower);
      ResultCases(files[|files| - 1], queryLower);
    }
  }

  /** Scores never increase along the results. */
  predicate SortedByScore(rs: seq<SearchResult>) {
    forall i, j | 0 <= i < j < |rs| :: rs[i].score >= rs[j].score
  }

  /** `r` put before the first result that scores less. */
  function InsertByScore(r: SearchResult, rs: seq<SearchResult>): (out: seq<SearchResult>)
    requires SortedByScore(rs)
    ensures SortedByScore(out) && multiset(out) == multiset(rs) + multiset{r}
    ensures forall x | x in out :: x == r || x in rs
  {
    if rs == [] || r.score >= rs[0].score then
      SortedCons(r, rs);
      [r] + rs
    else
      var tail := InsertByScore(r, rs[1..]);
      assert rs == [rs[0]] + rs[1..];
      SortedCons(rs[0], tail);
      [rs[0]] + tail
  }

  /** A result scoring at least as much as every result of a sorted sequence can go
      in front of it. */
  lemma {:induction false} SortedCons(h: SearchResult, rs: seq<SearchResult>)
    requires SortedByScore(rs) && forall x | x in rs :: x.score <= h.score
    ensures SortedByScore([h] + rs)
  {
    assert forall j | 0 <= j < |rs| :: rs[j] in rs;
  }

  /** The order `slices.SortFunc` leaves the results in: by non-increasing score. Go's
      sort is not stable, so the order of equal scores is not part of the contract. */
  function SortByScore(rs: seq<SearchResult>): (out: seq<SearchResult>)
    ensures SortedByScore(out) && multiset(out) == multiset(rs)
  {
    if rs == [] then []
    else
      assert rs == [rs[0]] + rs[1..];
      InsertByScore(rs[0], SortByScore(rs[1..]))
  }

  /** One round of `Search`'s loop: the entry's name is matched first and, when
      that fails, a file's content. */
  method MatchEntry(file: FileEntry, queryLower: string) returns (result: Option<SearchResult>)
    requires queryLower != []
    ensures result == ResultFor(file, queryLower)
  {
    var fileNameLower := Lower(file.fileName);
    var contentLower := Lower(file.content);
    var matchPos := Index(fileNameLower, queryLower);
    if matchPos >= 0 {
      var score := 100;
      if fileNameLower == queryLower {
        score := score + 100;
      } else if IsWordMatch(queryLower, fileNameLower, matchPos) {
        score := score + 50;
      }
      return Some(SearchResult(file.path, file.relativePath, file.fileName, "", score, file.isFolder));
    }
    result := None;
    if !file.isFolder {
      matchPos := Index(contentLower, queryLower);
      if matchPos >= 0 {
        var score := 10;
        if IsWordMatch(queryLower, contentLower, matchPos) {
          score := score + 20;
        }
        var snippet := ExtractSnippet(file.content, matchPos, DefaultContextLen);
        result := Some(SearchResult(file.path, file.relativePath, file.fileName, snippet, score, false));
      }
    }
  }

  /** The engine: the indexed entries and whether indexing is under way. */
  class SearchEngine {
    var files: seq<FileEntry>
    var isIndexing: bool

    /** `NewSearchEngine`: nothing indexed. */
    constructor ()
      ensures files == [] && !isIndexing
    {
      files, isIndexing := [], false;
    }

    /** `Search`: nothing (Go's nil) for an empty query or while indexing; otherwise
        every entry's result, ordered by non-increasing score. */
    method Search(query: string) returns (results: Option<seq<SearchResult>>)
      ensures query == "" || isIndexing ==> results == None
      ensures query != "" && !isIndexing ==>
        results.Some? && SortedByScore(results.value)
        && multiset(results.value) == multiset(Candidates(files, Lower(query)))
    {
      if query == "" || isIndexing {
        return None;
      }
      var queryLower := Lower(query);
      var entries := files;
      var found: seq<SearchResult> := [];
      for k := 0 to |entries|
        invariant found == Candidates(entries[..k], queryLower)
      {
        assert entries[..k + 1][..k] == entries[..k];
        var result := MatchEntry(entries[k], queryLower);
        if result.Some? {
          found := found + [result.value];
        }
      }
      assert entries[..|entries|] == entries;
      results := Some(SortByScore(found));
    }
  }
}
