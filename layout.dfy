/** The split of the terminal between the file tree and the note pane (layout.go). */
module Layout {
  import opened GoArith

  const MinFsTreeWidth := 5
  const MinNoteViewWidth := 10
  const DividerWidth := 1
  /** How many columns on each side of the divider a drag may start from. */
  const DragHitArea := 2

  /** `calculateLayout`: the requested tree width (a quarter of the terminal when 0)
      capped so the note pane keeps its minimum, then raised to the tree's minimum;
      the note pane takes the rest beside the divider, and never less than nothing. */
  function CalculateLayout(totalWidth: int, requestedTreeWidth: int): (widths: (int, int))
    ensures widths.0 >= MinFsTreeWidth && widths.1 >= 0
    ensures widths.1 > 0 ==> widths.0 + DividerWidth + widths.1 == totalWidth
    ensures widths.0 > MinFsTreeWidth ==> widths.0 <= totalWidth - DividerWidth - MinNoteViewWidth
  {
    var wanted := if requestedTreeWidth == 0 then Quo(totalWidth, 4) else requestedTreeWidth;
    var maxTreeWidth := totalWidth - DividerWidth - MinNoteViewWidth;
    var capped := if wanted > maxTreeWidth then maxTreeWidth else wanted;
    var treeWidth := if capped < MinFsTreeWidth then MinFsTreeWidth else capped;
    var noteWidth := totalWidth - treeWidth - DividerWidth;
    (treeWidth, if noteWidth < 0 then 0 else noteWidth)
  }

  /** The tree is never narrower than its minimum, since that clamp comes last, and
      the note pane is never negative. */
  lemma {:induction false} LayoutBounds(totalWidth: int, requestedTreeWidth: int)
    ensures var (tree, note) := CalculateLayout(totalWidth, requestedTreeWidth);
      tree >= MinFsTreeWidth && note >= 0
  {
  }

  /** On a terminal wide enough for both minimums, the widths and the divider fill it
      exactly and the note pane keeps its minimum width. */
  lemma {:induction false} LayoutFills(totalWidth: int, requestedTreeWidth: int)
    requires totalWidth >= MinFsTreeWidth + DividerWidth + MinNoteViewWidth
    ensures var (tree, note) := CalculateLayout(totalWidth, requestedTreeWidth);
      tree + DividerWidth + note == totalWidth && note >= MinNoteViewWidth
      && tree <= totalWidth - DividerWidth - MinNoteViewWidth
  {
  }

  /** A width the terminal allows is kept as asked; an unset one is a quarter of the
      terminal, rounded down, when that is allowed. */
  lemma {:induction false} LayoutKeepsRequest(totalWidth: int, requestedTreeWidth: int)
    requires MinFsTreeWidth <= requestedTreeWidth <= totalWidth - DividerWidth - MinNoteViewWidth
    ensures CalculateLayout(totalWidth, requestedTreeWidth).0 == requestedTreeWidth
    ensures var q := CalculateLayout(totalWidth, 0).0;
      totalWidth >= 0 && MinFsTreeWidth <= totalWidth / 4 <= totalWidth - DividerWidth - MinNoteViewWidth
      ==> q == totalWidth / 4
  {
  }

  /** `isHoveringDivider`: the mouse is within the hit area around the divider. */
  predicate IsHoveringDivider(mouseX: int, dividerPos: int) {
    mouseX >= dividerPos - DragHitArea && mouseX <= dividerPos + DragHitArea
  }

  /** The hit area is the five columns centred on the divider. */
  lemma {:induction false} HoverArea(dividerPos: int)
    ensures forall x :: IsHoveringDivider(x, dividerPos) <==> x in {dividerPos - 2, dividerPos - 1, dividerPos, dividerPos + 1, dividerPos + 2}
  {
  }
}
