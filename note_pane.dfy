/** The note pane's state machine: `NoteView.Update` of internal/ui/note/model.go and
    its copy in notes.go, on the keys and messages that change the pane's state. The
    viewport, the text area, rendering and the file commands are not modelled. */
module NotePane {
  import opened Outcomes
  import opened NoteSections

  /** How much of the current section is shown. */
  datatype ViewState = StateTitleOnly | StateContent | StateHints

  /** What the space key shows next: the title only, then the hints, then the
      content, then the title only again. */
  function NextView(v: ViewState): (r: ViewState)
    ensures r != v
  {
    match v
    case StateTitleOnly => StateHints
    case StateHints => StateContent
    case StateContent => StateTitleOnly
  }

  /** The space key cycles through the three states with period three: no state
      comes back sooner. */
  lemma {:induction false} ViewCycle(v: ViewState)
    ensures NextView(NextView(NextView(v))) == v && NextView(NextView(v)) != v
    ensures v == StateTitleOnly ==> NextView(v) == StateHints && NextView(NextView(v)) == StateContent
  {
  }

  /** The state the pane's updates read and write. */
  datatype Note = Note(
    path: string, rawContent: string, sections: seq<Section>, index: int,
    err: Option<string>, loading: bool, view: ViewState, editing: bool)

  /** The section index is one `renderNote` can read: a position of the sections, or 0
      when there are none. */
  predicate IndexInRange(n: Note) {
    0 <= n.index && (n.index < |n.sections| || n.index == 0)
  }

  /** A fresh pane (`NewNoteView`): nothing loaded, title-only view, not editing. */
  function Initial(): (n: Note)
    ensures IndexInRange(n) && n.path == "" && !n.loading && !n.editing && n.view == StateTitleOnly
  {
    Note("", "", [], 0, None, false, StateTitleOnly, false)
  }

  /** A key press. While editing, only esc and ctrl+q matter to the pane: they end
      editing. Otherwise enter starts editing a loaded note, space cycles the view, and
      left/a and right/d step to the previous and next section within bounds. */
  function OnKey(n: Note, key: string): (r: Note)
    ensures IndexInRange(n) ==> IndexInRange(r)
    ensures -1 <= r.index - n.index <= 1 && (n.index >= 0 ==> r.index >= 0)
    ensures r.path == n.path && r.rawContent == n.rawContent && r.sections == n.sections
    ensures r.err == n.err && r.loading == n.loading
    ensures r.editing && !n.editing ==> key == "enter" && n.path != "" && !n.loading
    ensures !r.editing && n.editing ==> key == "esc" || key == "ctrl+q"
    ensures n.editing && (key == "esc" || key == "ctrl+q") ==> !r.editing
    ensures r.view != n.view ==> !n.editing && key == " " && r.view == NextView(n.view)
    ensures r.index != n.index ==> !n.editing && (key == "left" || key == "a" || key == "right" || key == "d")
    ensures n.editing && key != "esc" && key != "ctrl+q" ==> r == n
    ensures !n.editing && key == "enter" && n.path != "" && !n.loading ==> r.editing
    ensures !n.editing && key == " " ==> r.view == NextView(n.view)
    ensures !n.editing && (key == "left" || key == "a") && n.index > 0 ==> r.index == n.index - 1
    ensures !n.editing && (key == "right" || key == "d") && n.index < |n.sections| - 1 ==> r.index == n.index + 1
  {
    if n.editing then
      if key == "esc" || key == "ctrl+q" then n.(editing := false) else n
    else if key == "enter" then
      if n.path != "" && !n.loading then n.(editing := true) else n
    else if key == " " then
      n.(view := NextView(n.view))
    else if key == "left" || key == "a" then
      if n.index > 0 then n.(index := n.index - 1) else n
    else if key == "right" || key == "d" then
      if n.index < |n.sections| - 1 then n.(index := n.index + 1) else n
    else n
  }

  /** A request to load a note (`LoadNoteMsg`; the copy in notes.go is the case
      `force == false`): nothing happens for the note already loaded unless forced;
      otherwise the pane takes the new path, stops editing, starts loading and goes
      back to the first section. */
  function OnLoadNote(n: Note, path: string, force: bool): (r: Note)
    ensures IndexInRange(n) ==> IndexInRange(r)
    ensures n.path == path && !force ==> r == n
    ensures !(n.path == path && !force) ==>
      r.path == path && r.loading && !r.editing && r.index == 0
      && r.rawContent == n.rawContent && r.sections == n.sections && r.err == n.err && r.view == n.view
  {
    if n.path == path && !force then n
    else n.(path := path, editing := false, loading := true, index := 0)
  }

  /** A loaded note (`LoadedNote`): loading ends, the text, sections and error are
      taken from the message, and the pane shows the first section's title only. */
  function OnLoaded(n: Note, rawContent: string, sections: seq<Section>, err: Option<string>): (r: Note)
    ensures IndexInRange(r)
    ensures !r.loading && r.rawContent == rawContent && r.sections == sections && r.err == err
    ensures r.index == 0 && r.view == StateTitleOnly && r.path == n.path && r.editing == n.editing
  {
    n.(loading := false, rawContent := rawContent, sections := sections, err := err,
       index := 0, view := StateTitleOnly)
  }

  /** A sequence of key presses. */
  function OnKeys(n: Note, keys: seq<string>): Note
    decreases |keys|
  {
    if keys == [] then n else OnKeys(OnKey(n, keys[0]), keys[1..])
  }

  /** Whatever keys are pressed, the index stays between 0 and the last section (0
      when there is none), and the note itself is untouched. */
  lemma {:induction false} KeysKeepIndex(n: Note, keys: seq<string>)
    requires IndexInRange(n)
    ensures IndexInRange(OnKeys(n, keys))
    ensures OnKeys(n, keys).index <= if |n.sections| == 0 then 0 else |n.sections| - 1
    ensures OnKeys(n, keys).sections == n.sections && OnKeys(n, keys).path == n.path
    decreases |keys|
  {
    if keys != [] {
      KeysKeepIndex(OnKey(n, keys[0]), keys[1..]);
    }
  }

  /** Three presses of space bring the view back. */
  lemma {:induction false} SpaceThrice(n: Note)
    requires !n.editing
    ensures OnKeys(n, [" ", " ", " "]) == n
  {
    assert [" ", " ", " "][1..] == [" ", " "] && [" ", " "][1..] == [" "] && [" "][1..] == [];
    ViewCycle(n.view);
  }

  /** Stepping right and back left returns to the same section when there is one to
      the right; stepping left and back right does when there is one to the left. */
  lemma {:induction false} StepBack(n: Note)
    requires !n.editing && IndexInRange(n)
    ensures n.index < |n.sections| - 1 ==> OnKey(OnKey(n, "right"), "left") == n
    ensures n.index > 0 ==> OnKey(OnKey(n, "left"), "right") == n
  {
  }

  /** Asking twice for the same note without force is asking once. */
  lemma {:induction false} LoadIdempotent(n: Note, path: string)
    ensures OnLoadNote(OnLoadNote(n, path, false), path, false) == OnLoadNote(n, path, false)
  {
  }

  /** After a load request and its answer, the pane shows the requested note's first
      section, title only; editing survives only an ignored request. */
  lemma {:induction false} LoadThenLoaded(n: Note, path: string, force: bool,
                                          rawContent: string, sections: seq<Section>, err: Option<string>)
    ensures var r := OnLoaded(OnLoadNote(n, path, force), rawContent, sections, err);
      r.path == path && !r.loading && r.index == 0 && r.view == StateTitleOnly
      && r.sections == sections && r.editing == (n.path == path && !force && n.editing)
  {
  }

  /** The pane, with the fields its `Update` writes. */
  class NoteView {
    var path: string
    var rawContent: string
    var sections: seq<Section>
    var currentSectionIndex: int
    var err: Option<string>
    var loading: bool
    var viewState: ViewState
    var isEditing: bool

    function State(): Note
      reads this
    {
      Note(path, rawContent, sections, currentSectionIndex, err, loading, viewState, isEditing)
    }

    /** `NewNoteView`. */
    constructor ()
      ensures State() == Initial()
    {
      path, rawContent, sections, currentSectionIndex := "", "", [], 0;
      err, loading, viewState, isEditing := None, false, StateTitleOnly, false;
    }

    /** `Update` on a key press. */
    method Key(key: string)
      modifies this
      ensures State() == OnKey(old(State()), key)
    {
      if isEditing {
        if key == "esc" || key == "ctrl+q" {
          isEditing := false;
        }
        return;
      }
      if key == "enter" {
        if path != "" && !loading {
          isEditing := true;
        }
      } else if key == " " {
        if viewState == StateTitleOnly {
          viewState := StateHints;
        } else if viewState == StateHints {
          viewState := StateContent;
        } else if viewState == StateContent {
          viewState := StateTitleOnly;
        }
      } else if key == "left" || key == "a" {
        if currentSectionIndex > 0 {
          currentSectionIndex := currentSectionIndex - 1;
        }
      } else if key == "right" || key == "d" {
        if currentSectionIndex < |sections| - 1 {
          currentSectionIndex := currentSectionIndex + 1;
        }
      }
    }

    /** `Update` on `LoadNoteMsg`. */
    method LoadNote(notePath: string, force: bool)
      modifies this
      ensures State() == OnLoadNote(old(State()), notePath, force)
    {
      if path == notePath && !force {
        return;
      }
      path := notePath;
      isEditing := false;
      loading := true;
      currentSectionIndex := 0;
    }

    /** `Update` on `LoadedNote`. */
    method Loaded(msgRaw: string, msgSections: seq<Section>, msgErr: Option<string>)
      modifies this
      ensures State() == OnLoaded(old(State()), msgRaw, msgSections, msgErr)
    {
      loading := false;
      rawContent := msgRaw;
      sections := msgSections;
      err := msgErr;
      currentSectionIndex := 0;
      viewState := StateTitleOnly;
    }
  }
}
