/** Hint extraction from a note section: every `**…**` or `__…__` span of the text,
    found the way Go's `regexp` finds the successive matches of
    `(?s)\*\*(.*?)\*\*|__(.*?)__` — leftmost match first, the `**` alternative tried
    before `__`, the lazy group ending at the earliest closing delimiter, the next
    search starting where the last match ended. Empty spans are consumed and give no
    hint. This is not Markdown emphasis: there are no flanking rules. */
module NoteHints {
  import opened Outcomes

  /** A doubled delimiter character `d d` starts at position `k`. */
  predicate Delim(s: string, k: int, d: char) {
    0 <= k && k + 2 <= |s| && s[k] == d && s[k + 1] == d
  }

  /** The earliest doubled delimiter at or after `from`: where the lazy `(.*?)` stops. */
  function CloseFrom(s: string, d: char, from: nat): (r: Option<nat>)
    ensures r.Some? ==> from <= r.value && Delim(s, r.value, d)
    decreases |s| - from
  {
    if from + 2 > |s| then None
    else if Delim(s, from, d) then Some(from)
    else CloseFrom(s, d, from + 1)
  }

  /** No delimiter lies between `from` and the one CloseFrom finds; when it finds none,
      there is none at all. */
  lemma {:induction false} CloseFromEarliest(s: string, d: char, from: nat)
    ensures CloseFrom(s, d, from).Some? ==> forall j | from <= j < CloseFrom(s, d, from).value :: !Delim(s, j, d)
    ensures CloseFrom(s, d, from).None? ==> forall j | from <= j :: !Delim(s, j, d)
    decreases |s| - from
  {
    if from + 2 <= |s| && !Delim(s, from, d) {
      CloseFromEarliest(s, d, from + 1);
    }
  }

  /** The first delimiter at or after `from` is the one CloseFrom finds. */
  lemma {:induction false} CloseFromIs(s: string, d: char, from: nat, c: nat)
    requires from <= c && Delim(s, c, d)
    requires forall j | from <= j < c :: !Delim(s, j, d)
    ensures CloseFrom(s, d, from) == Some(c)
    decreases c - from
  {
    if from < c {
      CloseFromIs(s, d, from + 1, c);
    }
  }

  /** The two alternatives of the pattern, `**(.*?)**` and `__(.*?)__`. */
  datatype Alternative = Stars | Underscores

  /** One match of the pattern: where it starts and ends, and which alternative took
      part; the inner text lies between the two delimiters. */
  datatype Match = Match(start: nat, end: nat, alt: Alternative)

  /** Where the span of delimiter `d` opened at `k` closes, if it does. */
  function SpanAt(s: string, k: nat, d: char): (r: Option<nat>)
    ensures r.Some? ==> k + 2 <= r.value && Delim(s, k, d) && Delim(s, r.value, d)
  {
    if Delim(s, k, d) then CloseFrom(s, d, k + 2) else None
  }

  /** The match that starts at `k`, if the pattern matches there: `**`, the shortest
      inner text, `**`; failing that `__`, the shortest inner text, `__`. */
  function MatchAt(s: string, k: nat): (r: Option<Match>)
    ensures r.Some? ==> r.value.start == k && k + 4 <= r.value.end <= |s|
  {
    if SpanAt(s, k, '*').Some? then Some(Match(k, SpanAt(s, k, '*').value + 2, Stars))
    else if SpanAt(s, k, '_').Some? then Some(Match(k, SpanAt(s, k, '_').value + 2, Underscores))
    else None
  }

  /** The leftmost match that starts at or after `from`. */
  function NextMatch(s: string, from: nat): (r: Option<Match>)
    ensures r.Some? ==> from <= r.value.start && MatchAt(s, r.value.start) == r
    decreases |s| - from
  {
    if from >= |s| then None
    else if MatchAt(s, from).Some? then MatchAt(s, from)
    else NextMatch(s, from + 1)
  }

  /** NextMatch skips no match: none starts between `from` and the one it finds, and
      none at all when it finds nothing. */
  lemma {:induction false} NextMatchLeftmost(s: string, from: nat)
    ensures NextMatch(s, from).Some? ==>
      forall k | from <= k < NextMatch(s, from).value.start :: MatchAt(s, k).None?
    ensures NextMatch(s, from).None? ==> forall k | from <= k :: MatchAt(s, k).None?
    decreases |s| - from
  {
    if from < |s| && MatchAt(s, from).None? {
      NextMatchLeftmost(s, from + 1);
    }
  }

  /** The first position at or after `from` where the pattern matches gives NextMatch. */
  lemma {:induction false} NextMatchIs(s: string, from: nat, k: nat)
    requires from <= k && MatchAt(s, k).Some?
    requires forall i | from <= i < k :: MatchAt(s, i).None?
    ensures NextMatch(s, from) == MatchAt(s, k)
    decreases k - from
  {
    if from < k {
      NextMatchIs(s, from + 1, k);
    }
  }

  /** The text between the delimiters of a match. */
  function Inner(s: string, m: Match): string
    requires m.start + 4 <= m.end <= |s|
  {
    s[m.start + 2..m.end - 2]
  }

  /** The first capture group, `match[1]`: the inner text of a `**` match, else "". */
  function Group1(s: string, m: Match): string
    requires m.start + 4 <= m.end <= |s|
  {
    if m.alt == Stars then Inner(s, m) else ""
  }

  /** The second capture group, `match[2]`: the inner text of a `__` match, else "". */
  function Group2(s: string, m: Match): string
    requires m.start + 4 <= m.end <= |s|
  {
    if m.alt == Underscores then Inner(s, m) else ""
  }

  /** The hint a match contributes: its inner text unless that is empty. */
  function Picked(s: string, m: Match): (r: seq<string>)
    requires m.start + 4 <= m.end <= |s|
  {
    if Inner(s, m) == "" then [] else [Inner(s, m)]
  }

  /** The hints of a text: those of its leftmost match, then those of the text after
      that match, where the search resumes. */
  function HintsOf(s: string): (r: seq<string>)
    decreases |s|
  {
    match NextMatch(s, 0)
    case None => []
    case Some(m) => Picked(s, m) + HintsOf(s[m.end..])
  }

  /** `ExtractHints`: walks the successive matches and keeps the first non-empty
      capture group of each. The search for the next match runs on the text after the
      previous one, which the pattern cannot tell from the whole text: it has no
      anchors and looks at no character before the match. */
  method ExtractHints(content: string) returns (hints: seq<string>)
    ensures hints == HintsOf(content)
  {
    hints := [];
    var rest := content;
    var next := NextMatch(rest, 0);
    while next.Some?
      invariant next == NextMatch(rest, 0)
      invariant hints + HintsOf(rest) == HintsOf(content)
      decreases |rest|
    {
      var m := next.value;
      HintsStep(rest, hints);
      ghost var kept := hints;
      var first, second := Group1(rest, m), Group2(rest, m);
      if first != "" {
        hints := hints + [first];
      } else if second != "" {
        hints := hints + [second];
      }
      assert hints == kept + Picked(rest, m);
      rest := rest[m.end..];
      next := NextMatch(rest, 0);
    }
  }

  /** One round of ExtractHints: the hints kept so far, then those of the next match,
      then those of the text after it. */
  lemma {:induction false} HintsStep(s: string, kept: seq<string>)
    requires NextMatch(s, 0).Some?
    ensures kept + HintsOf(s) ==
      (kept + Picked(s, NextMatch(s, 0).value)) + HintsOf(s[NextMatch(s, 0).value.end..])
  {
  }

  /** Every hint is non-empty: empty spans are consumed without a hint. */
  lemma {:induction false} HintsNonEmpty(s: string)
    ensures forall h | h in HintsOf(s) :: h != ""
    decreases |s|
  {
    var r := NextMatch(s, 0);
    if r.Some? {
      HintsNonEmpty(s[r.value.end..]);
    }
  }

  /** Text without a `*` or `_` character. */
  predicate Plain(s: string) {
    forall i | 0 <= i < |s| :: s[i] != '*' && s[i] != '_'
  }

  /** Plain text has no hints. */
  lemma {:induction false} PlainHasNoHints(s: string)
    requires Plain(s)
    ensures HintsOf(s) == []
  {
    assert forall k | 0 <= k :: !Delim(s, k, '*') && !Delim(s, k, '_');
    assert forall k | 0 <= k :: MatchAt(s, k).None?;
  }

  /** A delimited span after plain text yields its inner text (nothing when that is
      empty), and extraction goes on after the closing delimiter. */
  lemma {:induction false} SpanHint(p: string, d: char, h: string, q: string)
    requires Plain(p) && (d == '*' || d == '_')
    requires forall i | 0 <= i < |h| :: h[i] != d
    ensures HintsOf(p + [d, d] + h + [d, d] + q) == (if h == "" then [] else [h]) + HintsOf(q)
  {
    var a := p + [d, d] + h + [d, d];
    var s := a + q;
    var k := |p|;
    var c := k + 2 + |h|;
    assert Delim(s, k, d) && Delim(s, c, d);
    assert forall j | k + 2 <= j < c :: s[j] == h[j - k - 2];
    CloseFromIs(s, d, k + 2, c);
    assert forall i | 0 <= i < k :: s[i] == p[i];
    assert s[k + 2..c] == h;
    var m := MatchAt(s, k).value;
    assert m.end == |a| && Picked(s, m) == (if h == "" then [] else [h]);
    NextMatchIs(s, 0, k);
    assert s[|a|..] == q;
  }

  /** The hint cases of internal/ui/note/model_test.go. */
  lemma {:induction false} SampleSingle()
    ensures HintsOf("This is a **hint**.") == ["hint"]
  {
    PlainHasNoHints(".");
    assert "This is a **hint**." == "This is a " + "**" + "hint" + "**" + ".";
    SpanHint("This is a ", '*', "hint", ".");
  }

  lemma {:induction false} SampleBoldTail()
    ensures HintsOf(" and **two**") == ["two"]
  {
    PlainHasNoHints("");
    assert " and **two**" == " and " + "**" + "two" + "**" + "";
    SpanHint(" and ", '*', "two", "");
  }

  lemma {:induction false} SampleUnderscoreTail()
    ensures HintsOf(" and __two__") == ["two"]
  {
    PlainHasNoHints("");
    assert " and __two__" == " and " + "__" + "two" + "__" + "";
    SpanHint(" and ", '_', "two", "");
  }

  lemma {:induction false} SampleTwoBold()
    ensures HintsOf("**one** and **two**") == ["one", "two"]
  {
    assert "**one** and **two**" == "" + "**" + "one" + "**" + " and **two**";
    SampleBoldTail();
    SpanHint("", '*', "one", " and **two**");
  }

  lemma {:induction false} SampleTwoUnderscore()
    ensures HintsOf("__one__ and __two__") == ["one", "two"]
  {
    assert "__one__ and __two__" == "" + "__" + "one" + "__" + " and __two__";
    SampleUnderscoreTail();
    SpanHint("", '_', "one", " and __two__");
  }

  lemma {:induction false} SampleMixed()
    ensures HintsOf("**one** and __two__") == ["one", "two"]
  {
    assert "**one** and __two__" == "" + "**" + "one" + "**" + " and __two__";
    SampleUnderscoreTail();
    SpanHint("", '*', "one", " and __two__");
  }

  lemma {:induction false} SamplePlain()
    ensures HintsOf("just plain text") == []
  {
    PlainHasNoHints("just plain text");
  }
}
