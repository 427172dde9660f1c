/** The single-note model of notes/notes.go: a note file's first line, when it is a
    "# " heading, becomes the title and the rest the content. Reading the file is a
    parameter: its text, or the error the read reported. */
module NoteFile {
  import opened Outcomes
  import opened NoteText

  /** What reading the note file gave. */
  datatype FileRead = FileData(text: string) | ReadFailed(message: string)

  /** The message `fetchContent` sends back (`contentFetchedMsg`). */
  datatype ContentFetched = ContentFetched(title: string, content: string, hints: seq<string>, err: Option<string>)

  /** The note's state (`Model`). */
  datatype NoteModel = NoteModel(
    path: string, title: string, content: string, hints: seq<string>, err: Option<string>, loading: bool)

  /** `NewNote`: a note of the given path, loading, with nothing shown yet. */
  function NewNote(path: string): (m: NoteModel)
    ensures m.path == path && m.loading && m.title == "" && m.content == "" && m.hints == [] && m.err == None
  {
    NoteModel(path, "", "", [], None, true)
  }

  /** The "# " prefix of a title line. */
  const TitlePrefix := "# "

  /** `extractHints` of this file is a placeholder that finds nothing. */
  function PlaceholderHints(content: string): (hints: seq<string>)
    ensures hints == []
  {
    []
  }

  /** `fetchContent`: a failed read gives only the error; otherwise a first line
      starting with "# " is the title without that prefix and the other lines,
      rejoined, the content, and a text without such a line is all content. The
      content is trimmed of surrounding white space. */
  function FetchContent(read: FileRead): (msg: ContentFetched)
    ensures read.ReadFailed? ==> msg == ContentFetched("", "", [], Some(read.message))
    ensures read.FileData? ==> msg.err == None && msg.hints == [] && '\n' !in msg.title
    ensures read.FileData? ==> TrimSpace(msg.content) == msg.content
  {
    match read
    case ReadFailed(message) => ContentFetched("", "", [], Some(message))
    case FileData(data) =>
      var lines := SplitLines(data);
      var first := lines[0];
      var headed := |TitlePrefix| <= |first| && first[..|TitlePrefix|] == TitlePrefix;
      var title := if headed then first[|TitlePrefix|..] else "";
      var content := if headed then JoinLines(lines[1..]) else data;
      var hints := PlaceholderHints(content);
      assert '\n' !in title by {
        assert forall i | 0 <= i < |title| :: title[i] == first[i + |TitlePrefix|] && first[i + |TitlePrefix|] in first;
      }
      TrimSpaceIdempotent(content);
      ContentFetched(title, TrimSpace(content), hints, None)
  }

  /** `Update` on `contentFetchedMsg`: loading ends and the message's fields are shown;
      the path is kept. */
  function OnContentFetched(m: NoteModel, msg: ContentFetched): (r: NoteModel)
    ensures r.path == m.path && !r.loading
    ensures r.title == msg.title && r.content == msg.content && r.hints == msg.hints && r.err == msg.err
  {
    m.(loading := false, title := msg.title, content := msg.content, hints := msg.hints, err := msg.err)
  }

  /** A note written as a "# " title line and a body reads back as that title and the
      trimmed body. */
  lemma {:induction false} HeadedNote(title: string, body: string)
    requires '\n' !in title
    ensures FetchContent(FileData(TitlePrefix + title + "\n" + body)) == ContentFetched(title, TrimSpace(body), [], None)
  {
    var data := TitlePrefix + title + "\n" + body;
    var head := TitlePrefix + title;
    assert '\n' !in head by {
      assert forall i | 0 <= i < |head| :: head[i] == (if i < 2 then TitlePrefix[i] else title[i - 2]);
      assert forall i | 0 <= i < |title| :: title[i] in title;
    }
    var lines := SplitLines(body);
    SplitJoin([head] + lines) by {
      forall l | l in [head] + lines ensures '\n' !in l {
      }
    }
    JoinSplit(body);
    assert lines[..] == lines && ([head] + lines)[1..] == lines;
    assert JoinLines([head] + lines) == head + "\n" + JoinLines(lines);
    assert data == head + "\n" + body;
    assert head[..2] == TitlePrefix && head[2..] == title;
  }

  /** A note that is a "# " title line alone reads back as that title and no content. */
  lemma {:induction false} TitleOnlyNote(title: string)
    requires '\n' !in title
    ensures FetchContent(FileData(TitlePrefix + title)) == ContentFetched(title, "", [], None)
  {
    var head := TitlePrefix + title;
    assert '\n' !in head by {
      assert forall i | 0 <= i < |head| :: head[i] == (if i < 2 then TitlePrefix[i] else title[i - 2]);
      assert forall i | 0 <= i < |title| :: title[i] in title;
    }
    SplitJoin([head]);
    assert JoinLines([head]) == head;
    assert head[..2] == TitlePrefix && head[2..] == title;
  }

  /** A note whose text does not start with "# " is all content, untitled. */
  lemma {:induction false} UntitledNote(data: string)
    requires !(|TitlePrefix| <= |data| && data[..|TitlePrefix|] == TitlePrefix)
    ensures FetchContent(FileData(data)) == ContentFetched("", TrimSpace(data), [], None)
  {
    FirstLinePrefix(data, TitlePrefix);
  }
}
