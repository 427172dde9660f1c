/** The pieces of Go's `strings` package the note code uses: `TrimSpace`, and
    `Split`/`Join` on the newline separator. Text is a sequence of characters, one
    per byte of the file. */
module NoteText {

  /** The bytes `strings.TrimSpace` trims while it sees only ASCII: tab, newline,
      vertical tab, form feed, carriage return and space. Every other byte, the bytes
      of a multi-byte UTF-8 sequence included, is kept. */
  predicate IsSpace(c: char) {
    c == '\t' || c == '\n' || c == '\U{0B}' || c == '\U{0C}' || c == '\r' || c == ' '
  }

  /** Every character of `s` is white space (vacuously so for the empty string). */
  predicate AllSpace(s: string) {
    forall i | 0 <= i < |s| :: IsSpace(s[i])
  }

  /** The number of white-space characters `s` starts with. */
  function LeadingSpaces(s: string): (n: nat)
    ensures n <= |s|
    ensures AllSpace(s[..n])
    ensures n < |s| ==> !IsSpace(s[n])
  {
    if s == [] || !IsSpace(s[0]) then 0
    else
      var n := 1 + LeadingSpaces(s[1..]);
      assert forall i | 1 <= i < n :: s[i] == s[1..][i - 1];
      n
  }

  /** The number of white-space characters `s` ends with. */
  function TrailingSpaces(s: string): (n: nat)
    ensures n <= |s|
    ensures AllSpace(s[|s| - n..])
    ensures n < |s| ==> !IsSpace(s[|s| - n - 1])
  {
    if s == [] || !IsSpace(s[|s| - 1]) then 0
    else
      var n := 1 + TrailingSpaces(s[..|s| - 1]);
      assert forall i | |s| - n <= i < |s| - 1 :: s[i] == s[..|s| - 1][i];
      n
  }

  /** `strings.TrimSpace`: `s` without its leading and trailing white space. */
  function TrimSpace(s: string): (r: string)
    ensures r == [] || (!IsSpace(r[0]) && !IsSpace(r[|r| - 1]))
    ensures LeadingSpaces(s) + |r| <= |s| && r == s[LeadingSpaces(s)..LeadingSpaces(s) + |r|]
    ensures AllSpace(s[LeadingSpaces(s) + |r|..])
  {
    var t := s[LeadingSpaces(s)..];
    assert t != [] ==> t[0] == s[LeadingSpaces(s)];
    t[..|t| - TrailingSpaces(t)]
  }

  /** The leading white space is the longest all-space prefix. */
  lemma {:induction false} LeadingIs(s: string, n: int)
    requires 0 <= n <= |s| && AllSpace(s[..n]) && (n < |s| ==> !IsSpace(s[n]))
    ensures LeadingSpaces(s) == n
  {
    var m := LeadingSpaces(s);
    assert forall i | 0 <= i < n :: IsSpace(s[i]) by {
      forall i | 0 <= i < n ensures IsSpace(s[i]) { assert s[..n][i] == s[i]; }
    }
    assert forall i | 0 <= i < m :: IsSpace(s[i]) by {
      forall i | 0 <= i < m ensures IsSpace(s[i]) { assert s[..m][i] == s[i]; }
    }
  }

  /** The trailing white space is the longest all-space suffix. */
  lemma {:induction false} TrailingIs(s: string, n: int)
    requires 0 <= n <= |s| && AllSpace(s[|s| - n..]) && (n < |s| ==> !IsSpace(s[|s| - n - 1]))
    ensures TrailingSpaces(s) == n
  {
    var m := TrailingSpaces(s);
    SuffixSpaces(s, |s| - n);
    SuffixSpaces(s, |s| - m);
    SameBoundary(s, n, m);
  }

  /** Two counts of trailing white space, each followed by a non-space or the start
      of `s`, agree. */
  lemma {:induction false} SameBoundary(s: string, n: int, m: int)
    requires 0 <= n <= |s| && 0 <= m <= |s|
    requires forall i | |s| - n <= i < |s| :: IsSpace(s[i])
    requires forall i | |s| - m <= i < |s| :: IsSpace(s[i])
    requires n < |s| ==> !IsSpace(s[|s| - n - 1])
    requires m < |s| ==> !IsSpace(s[|s| - m - 1])
    ensures n == m
  {
  }

  /** An all-space suffix of `s`, position by position. */
  lemma {:induction false} SuffixSpaces(s: string, k: int)
    requires 0 <= k <= |s| && AllSpace(s[k..])
    ensures forall i | k <= i < |s| :: IsSpace(s[i])
  {
    forall i | k <= i < |s| ensures IsSpace(s[i]) {
      assert s[k..][i - k] == s[i];
    }
  }

  /** Trimming removes exactly the white space around a text that neither starts nor
      ends with white space: whatever surrounds it, `TrimSpace` gives that text back. */
  lemma {:induction false} TrimSpaceAround(pre: string, mid: string, post: string)
    requires AllSpace(pre) && AllSpace(post)
    requires mid == [] || (!IsSpace(mid[0]) && !IsSpace(mid[|mid| - 1]))
    ensures TrimSpace(pre + mid + post) == mid
  {
    var s := pre + mid + post;
    if mid == [] {
      assert s == pre + post;
      assert AllSpace(s) by {
        forall i | 0 <= i < |s| ensures IsSpace(s[i]) {
          if i < |pre| { assert s[i] == pre[i]; } else { assert s[i] == post[i - |pre|]; }
        }
      }
      assert s[..|s|] == s;
      LeadingIs(s, |s|);
    } else {
      assert s[..|pre|] == pre && s[|pre|] == mid[0];
      LeadingIs(s, |pre|);
      var t := s[|pre|..];
      assert t == mid + post;
      assert t[|t| - |post|..] == post;
      assert t[|t| - |post| - 1] == mid[|mid| - 1];
      TrailingIs(t, |post|);
      assert t[..|t| - |post|] == mid;
    }
  }

  /** Trimming twice is trimming once. */
  lemma {:induction false} TrimSpaceIdempotent(s: string)
    ensures TrimSpace(TrimSpace(s)) == TrimSpace(s)
  {
    var r := TrimSpace(s);
    assert r == [] + r + [];
    TrimSpaceAround([], r, []);
  }

  /** The position of the first newline of `s`, or `|s|` when there is none. */
  function NewlineAt(s: string): (k: nat)
    ensures k <= |s|
    ensures forall i | 0 <= i < k :: s[i] != '\n'
    ensures k < |s| ==> s[k] == '\n'
  {
    if s == [] || s[0] == '\n' then 0
    else
      var k := 1 + NewlineAt(s[1..]);
      assert forall i | 1 <= i < k :: s[i] == s[1..][i - 1];
      k
  }

  /** `strings.Split(s, "\n")`: the lines of `s`; an empty text is one empty line, and a
      final newline ends in an empty line. */
  function SplitLines(s: string): (lines: seq<string>)
    ensures |lines| >= 1
    ensures forall l | l in lines :: '\n' !in l
    decreases |s|
  {
    var k := NewlineAt(s);
    if k == |s| then [s] else [s[..k]] + SplitLines(s[k + 1..])
  }

  /** `strings.Join(lines, "\n")`. */
  function JoinLines(lines: seq<string>): string
  {
    if lines == [] then ""
    else if |lines| == 1 then lines[0]
    else lines[0] + "\n" + JoinLines(lines[1..])
  }

  /** Joining the lines of a text gives the text back. */
  lemma {:induction false} JoinSplit(s: string)
    ensures JoinLines(SplitLines(s)) == s
    decreases |s|
  {
    var k := NewlineAt(s);
    if k < |s| {
      JoinSplit(s[k + 1..]);
      assert SplitLines(s) == [s[..k]] + SplitLines(s[k + 1..]);
      assert s == s[..k] + "\n" + s[k + 1..];
    }
  }

  /** Splitting joined lines gives the lines back when none holds a newline. */
  lemma {:induction false} SplitJoin(lines: seq<string>)
    requires |lines| >= 1 && forall l | l in lines :: '\n' !in l
    ensures SplitLines(JoinLines(lines)) == lines
  {
    var s := JoinLines(lines);
    var h := lines[0];
    if |lines| == 1 {
      NoNewline(h);
    } else {
      var t := JoinLines(lines[1..]);
      assert s == h + "\n" + t;
      NoNewline(h);
      assert s[|h|] == '\n';
      assert forall i | 0 <= i < |h| :: s[i] == h[i];
      assert NewlineAt(s) == |h|;
      assert s[..|h|] == h && s[|h| + 1..] == t;
      SplitJoin(lines[1..]);
    }
  }

  /** A text without newlines has its first newline at its end. */
  lemma {:induction false} NoNewline(s: string)
    requires '\n' !in s
    ensures NewlineAt(s) == |s|
  {
    assert forall i | 0 <= i < |s| :: s[i] in s;
  }

  /** The first line of a text starts with a prefix free of newlines exactly when the
      text itself does. */
  lemma {:induction false} FirstLinePrefix(s: string, prefix: string)
    requires '\n' !in prefix
    ensures (|prefix| <= |SplitLines(s)[0]| && SplitLines(s)[0][..|prefix|] == prefix)
        <==> (|prefix| <= |s| && s[..|prefix|] == prefix)
  {
    var k := NewlineAt(s);
    var first := SplitLines(s)[0];
    assert first == s[..k];
    if |prefix| <= |s| && s[..|prefix|] == prefix {
      assert forall i | 0 <= i < |prefix| :: s[i] == prefix[i] && prefix[i] in prefix;
    }
  }
}
