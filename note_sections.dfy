/** Splitting a note into sections at its headings (`ParseSections` of
    internal/ui/note/model.go and `parseSections` of notes.go, which are the same).
    The Markdown parser is not modelled: its output is the document's top-level
    blocks, each heading carrying its level and the byte spans of its text lines. */
module NoteSections {
  import opened NoteText
  import opened NoteHints

  /** The byte span of one line of a parsed block. */
  datatype Segment = Segment(start: nat, stop: nat)

  /** A top-level block of the parsed document: a heading with its level and text
      lines, or any other kind of block. */
  datatype Block = Heading(level: nat, lines: seq<Segment>) | Other

  /** One section of a note: the title of the heading above it ("no title" before the
      first heading), its trimmed text, and that text's hints. */
  datatype Section = Section(title: string, content: string, hints: seq<string>)

  /** A heading the splitter uses: one with at least one text line. */
  predicate Counted(b: Block) {
    b.Heading? && |b.lines| > 0
  }

  /** Where the heading's source text starts: its first line less the `#` markers and
      the space after them, as in an ATX heading (section 4.2 of CommonMark). */
  function HeadingStart(b: Block): int
    requires Counted(b)
  {
    b.lines[0].start - b.level - 1
  }

  /** Where the heading's source text ends: the end of its last line. */
  function HeadingEnd(b: Block): int
    requires Counted(b)
  {
    b.lines[|b.lines| - 1].stop
  }

  /** The slices the splitter takes of a heading lie inside the source. */
  predicate Placed(source: string, b: Block) {
    Counted(b) ==> 0 <= HeadingStart(b) <= HeadingEnd(b) <= |source|
  }

  /** Every heading of the document is placed. */
  predicate AllPlaced(source: string, blocks: seq<Block>) {
    forall b | b in blocks :: Placed(source, b)
  }

  /** The trimmed title of a heading. */
  function HeadingTitle(source: string, b: Block): string
    requires Counted(b) && Placed(source, b)
  {
    TrimSpace(source[HeadingStart(b)..HeadingEnd(b)])
  }

  /** A section built from a raw slice of the source. */
  function MakeSection(title: string, raw: string): (s: Section)
    ensures s.title == title && s.content == TrimSpace(raw) && s.hints == HintsOf(s.content)
  {
    var content := TrimSpace(raw);
    Section(title, content, HintsOf(content))
  }

  /** The splitter's state between blocks: the pending title, the position after the
      last heading, and the sections so far. */
  datatype Cursor = Cursor(title: string, lastPos: nat, sections: seq<Section>)

  /** The splitter's state after one more block: a counted heading closes the pending
      section when text lies between the last heading and this one, then becomes the
      pending title. */
  function Step(source: string, c: Cursor, b: Block): (r: Cursor)
    requires c.lastPos <= |source| && Placed(source, b)
    ensures r.lastPos <= |source|
    ensures !Counted(b) ==> r == c
    ensures Counted(b) ==> r.title == HeadingTitle(source, b) && r.lastPos == HeadingEnd(b)
    ensures Counted(b) && c.lastPos < HeadingStart(b) ==>
      r.sections == c.sections + [MakeSection(c.title, source[c.lastPos..HeadingStart(b)])]
    ensures Counted(b) && c.lastPos >= HeadingStart(b) ==> r.sections == c.sections
  {
    if !Counted(b) then c
    else
      var hs, he := HeadingStart(b), HeadingEnd(b);
      var sections :=
        if c.lastPos < hs then c.sections + [MakeSection(c.title, source[c.lastPos..hs])] else c.sections;
      Cursor(HeadingTitle(source, b), he, sections)
  }

  /** The splitter's state after the given blocks, starting from "no title" at 0. */
  function Scan(source: string, blocks: seq<Block>): (r: Cursor)
    requires AllPlaced(source, blocks)
    ensures r.lastPos <= |source|
  {
    if blocks == [] then Cursor("no title", 0, [])
    else Step(source, Scan(source, blocks[..|blocks| - 1]), blocks[|blocks| - 1])
  }

  /** The sections of a note: those closed by headings, then the text after the last
      heading when any is left. */
  function Sections(source: string, blocks: seq<Block>): seq<Section>
    requires AllPlaced(source, blocks)
  {
    var c := Scan(source, blocks);
    if c.lastPos < |source| then c.sections + [MakeSection(c.title, source[c.lastPos..])] else c.sections
  }

  /** `ParseSections`: one pass over the top-level blocks. */
  method ParseSections(source: string, blocks: seq<Block>) returns (sections: seq<Section>)
    requires AllPlaced(source, blocks)
    ensures sections == Sections(source, blocks)
  {
    var title := "no title";
    sections := [];
    var lastPos := 0;
    for i := 0 to |blocks|
      invariant Cursor(title, lastPos, sections) == Scan(source, blocks[..i])
    {
      assert blocks[..i + 1][..i] == blocks[..i];
      var child := blocks[i];
      assert Placed(source, child);
      if child.Heading? {
        if |child.lines| <= 0 {
          continue;
        }
        var level := child.level;
        var headingStart := child.lines[0].start - level - 1;
        var headingEnd := child.lines[|child.lines| - 1].stop;
        var contentEnd := headingStart;
        if lastPos < contentEnd {
          var contents := TrimSpace(source[lastPos..contentEnd]);
          var hints := ExtractHints(contents);
          sections := sections + [Section(title, contents, hints)];
          lastPos := headingEnd;
        }
        title := TrimSpace(source[headingStart..headingEnd]);
        lastPos := headingEnd;
      }
    }
    assert blocks[..|blocks|] == blocks;
    if lastPos < |source| {
      var contents := TrimSpace(source[lastPos..]);
      var hints := ExtractHints(contents);
      sections := sections + [Section(title, contents, hints)];
    }
  }

  /** The number of headings the splitter uses. */
  function CountedHeadings(blocks: seq<Block>): nat
  {
    if blocks == [] then 0
    else CountedHeadings(blocks[..|blocks| - 1]) + (if Counted(blocks[|blocks| - 1]) then 1 else 0)
  }

  /** Every heading closes at most one section, the end of the note at most one more. */
  lemma {:induction false} SectionBound(source: string, blocks: seq<Block>)
    requires AllPlaced(source, blocks)
    ensures |Sections(source, blocks)| <= CountedHeadings(blocks) + 1
  {
    ScanBound(source, blocks);
  }

  lemma {:induction false} ScanBound(source: string, blocks: seq<Block>)
    requires AllPlaced(source, blocks)
    ensures |Scan(source, blocks).sections| <= CountedHeadings(blocks)
  {
    if blocks != [] {
      ScanBound(source, blocks[..|blocks| - 1]);
    }
  }

  /** Every section's content is trimmed text whose hints the section carries. */
  lemma {:induction false} SectionsTrimmed(source: string, blocks: seq<Block>)
    requires AllPlaced(source, blocks)
    ensures forall s | s in Sections(source, blocks) ::
      TrimSpace(s.content) == s.content && s.hints == HintsOf(s.content)
  {
    ScanTrimmed(source, blocks);
    var c := Scan(source, blocks);
    if c.lastPos < |source| {
      TrimSpaceIdempotent(source[c.lastPos..]);
    }
  }

  lemma {:induction false} ScanTrimmed(source: string, blocks: seq<Block>)
    requires AllPlaced(source, blocks)
    ensures forall s | s in Scan(source, blocks).sections ::
      TrimSpace(s.content) == s.content && s.hints == HintsOf(s.content)
  {
    if blocks != [] {
      var init := blocks[..|blocks| - 1];
      var b := blocks[|blocks| - 1];
      ScanTrimmed(source, init);
      var c := Scan(source, init);
      assert b in blocks;
      if Counted(b) && c.lastPos < HeadingStart(b) {
        TrimSpaceIdempotent(source[c.lastPos..HeadingStart(b)]);
      }
    }
  }

  /** Every section is titled "no title" or by the trimmed text of one of the
      document's headings. */
  lemma {:induction false} SectionTitles(source: string, blocks: seq<Block>)
    requires AllPlaced(source, blocks)
    ensures forall s | s in Sections(source, blocks) ::
      s.title == "no title" || exists b | b in blocks && Counted(b) :: s.title == HeadingTitle(source, b)
  {
    ScanTitles(source, blocks);
  }

  lemma {:induction false} ScanTitles(source: string, blocks: seq<Block>)
    requires AllPlaced(source, blocks)
    ensures TitleFrom(source, blocks, Scan(source, blocks).title)
    ensures forall s | s in Scan(source, blocks).sections :: TitleFrom(source, blocks, s.title)
  {
    if blocks != [] {
      var init := blocks[..|blocks| - 1];
      var b := blocks[|blocks| - 1];
      ScanTitles(source, init);
      assert b in blocks;
      assert forall x | x in init :: x in blocks;
    }
  }

  /** A title is "no title" or that of a heading among the blocks. */
  predicate TitleFrom(source: string, blocks: seq<Block>, t: string)
    requires AllPlaced(source, blocks)
  {
    t == "no title" || exists b | b in blocks && Counted(b) :: t == HeadingTitle(source, b)
  }

  /** A note without headings is one section titled "no title" holding the whole
      text, or nothing at all when the note is empty. */
  lemma {:induction false} NoHeadings(source: string, blocks: seq<Block>)
    requires forall b | b in blocks :: !Counted(b)
    ensures AllPlaced(source, blocks)
    ensures Sections(source, blocks) ==
      if source == [] then [] else [MakeSection("no title", source)]
  {
    ScanNoHeadings(source, blocks);
    assert source[0..] == source;
  }

  lemma {:induction false} ScanNoHeadings(source: string, blocks: seq<Block>)
    requires forall b | b in blocks :: !Counted(b)
    ensures AllPlaced(source, blocks)
    ensures Scan(source, blocks) == Cursor("no title", 0, [])
  {
    if blocks != [] {
      var init := blocks[..|blocks| - 1];
      assert forall x | x in init :: x in blocks;
      assert blocks[|blocks| - 1] in blocks;
      ScanNoHeadings(source, init);
    }
  }

  /** An empty note has no sections, whatever its headings. */
  lemma {:induction false} EmptyNote(blocks: seq<Block>)
    requires AllPlaced("", blocks)
    ensures Sections("", blocks) == []
  {
    ScanEmpty(blocks);
  }

  lemma {:induction false} ScanEmpty(blocks: seq<Block>)
    requires AllPlaced("", blocks)
    ensures Scan("", blocks).sections == []
  {
    if blocks != [] {
      var init := blocks[..|blocks| - 1];
      assert forall x | x in init :: x in blocks;
      assert blocks[|blocks| - 1] in blocks;
      ScanEmpty(init);
    }
  }
}
