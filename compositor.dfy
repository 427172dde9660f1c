/** The overlay compositor of compositor/compositor.go: a grid of styled cells that
    text is written onto, one character per cell (two for a wide character), with ANSI
    SGR sequences (section 8.3.117 of ECMA-48, in the control-sequence form of section
    5.4) changing the style instead of taking cells, and rendered back to terminal text.
    The display width of a character (`runewidth.RuneWidth`) is a parameter. */
module Compositor {
  import opened NoteText

  /** One cell: a character and the SGR sequence that styles it. */
  datatype Pixel = Pixel(ch: char, style: string)

  /** The character 0 marks a column covered by the wide character to its left. */
  const Pad: char := '\0'
  const Esc: char := '\U{1B}'
  /** The SGR sequence that resets all styles. */
  const Reset: string := "\U{1B}[0m"
  /** An empty cell. */
  const Blank := Pixel(' ', "")

  /** `height` rows of `width` cells each. */
  predicate Shaped(cells: seq<seq<Pixel>>, width: int, height: int) {
    |cells| == height && forall r | 0 <= r < |cells| :: |cells[r]| == width
  }

  /** A parameter character of an SGR sequence. */
  predicate SgrParam(c: char) {
    '0' <= c <= '9' || c == ';'
  }

  /** `s` is one SGR sequence: ESC, `[`, digits and semicolons, `m`. */
  predicate IsSgr(s: string) {
    |s| >= 3 && s[0] == Esc && s[1] == '[' && s[|s| - 1] == 'm'
    && forall k | 2 <= k < |s| - 1 :: SgrParam(s[k])
  }

  /** `ansiRegex.MatchString(s)`: the pattern is not anchored, so it holds when an SGR
      sequence occurs anywhere in `s`. */
  predicate ContainsSgr(s: string) {
    exists i, j | 0 <= i <= j <= |s| :: IsSgr(s[i..j])
  }

  /** The first `m` of `s`, or -1 when there is none. */
  function IndexOfM(s: string): (k: int)
    ensures -1 <= k < |s|
    ensures k >= 0 ==> s[k] == 'm' && forall j | 0 <= j < k :: s[j] != 'm'
    ensures k == -1 ==> forall j | 0 <= j < |s| :: s[j] != 'm'
  {
    if s == [] then -1
    else if s[0] == 'm' then 0
    else
      var k := IndexOfM(s[1..]);
      assert forall j | 1 <= j < |s| :: s[j] == s[1..][j - 1];
      if k == -1 then -1 else k + 1
  }

  /** How many characters at the start of `rest` `Write` takes as one style change:
      from an escape up to the first `m`, when that stretch holds an SGR sequence
      (`ansiRegex.MatchString`); 0 when it does not. */
  function SgrLength(rest: string): (n: nat)
    ensures n <= |rest|
    ensures n > 0 ==> rest[0] == Esc && rest[n - 1] == 'm' && ContainsSgr(rest[..n])
    ensures n > 0 ==> forall k | 0 <= k < n - 1 :: rest[k] != 'm'
  {
    if rest != [] && rest[0] == Esc && IndexOfM(rest) != -1 && ContainsSgr(rest[..IndexOfM(rest) + 1])
    then IndexOfM(rest) + 1
    else 0
  }

  /** The guard of compositor/compositor.go:98 as written: the character's columns end
      within the row. */
  predicate FitsAsWritten(x: int, rw: int, width: int) {
    x + rw <= width
  }

  /** For a zero-width character (a combining mark) at the end of the row, the guard
      as written holds although column `x` is not in the row: the write indexes past
      the row's end. */
  lemma {:induction false} ZeroWidthAtEdge(width: nat)
    ensures FitsAsWritten(width, 0, width) && !(width < width)
  {
  }

  /** The guard as evidently intended: the character starts inside the row and its
      columns end within it. */
  predicate Fits(x: int, rw: int, width: int) {
    x < width && x + rw <= width
  }

  /** Under the intended guard every column the character covers is in the row. */
  lemma {:induction false} FitsInRow(x: int, rw: nat, width: int)
    requires 0 <= x && Fits(x, rw, width)
    ensures 0 <= x < width && (rw > 0 ==> x + rw - 1 < width)
    ensures rw > 0 ==> FitsAsWritten(x, rw, width)
  {
  }

  /** The row with a character of width `rw` and style `style` at column `x`, the
      columns it also covers padded. */
  function Put(row: seq<Pixel>, x: int, c: char, style: string, rw: int): (r: seq<Pixel>)
    ensures |r| == |row|
  {
    seq(|row|, j requires 0 <= j < |row| =>
      if j == x then Pixel(c, style) else if x < j < x + rw then Pixel(Pad, style) else row[j])
  }

  /** What `Write` makes of the grid: the characters still to write are `rest`, the
      pen is at column `x` of row `y` with style `style`; lines restart at `startX`.
      Writing stops at the end of the text or below the last row. */
  function Run(cells: seq<seq<Pixel>>, width: int, height: int, startX: int, widthOf: char -> nat,
               rest: string, x: int, y: int, style: string): (r: seq<seq<Pixel>>)
    requires Shaped(cells, width, height) && 0 <= x && 0 <= y
    requires 0 <= startX
    ensures Shaped(r, width, height)
    decreases |rest|
  {
    if rest == [] || y >= height then cells
    else
      var n := SgrLength(rest);
      if n > 0 then
        Run(cells, width, height, startX, widthOf, rest[n..], x, y, rest[..n])
      else if rest[0] == '\n' then
        Run(cells, width, height, startX, widthOf, rest[1..], startX, y + 1, style)
      else
        var rw := widthOf(rest[0]);
        var next := if Fits(x, rw, width) then cells[y := Put(cells[y], x, rest[0], style, rw)] else cells;
        Run(next, width, height, startX, widthOf, rest[1..], x + rw, y, style)
  }

  /** The cases of Run one at a time: an SGR sequence, a newline, another character. */
  lemma {:induction false} StyleStep(cells: seq<seq<Pixel>>, width: int, height: int, startX: int,
                                     widthOf: char -> nat, rest: string, x: int, y: int, style: string)
    requires Shaped(cells, width, height) && 0 <= startX && 0 <= x && 0 <= y < height
    requires SgrLength(rest) > 0
    ensures var n := SgrLength(rest);
      Run(cells, width, height, startX, widthOf, rest, x, y, style)
      == Run(cells, width, height, startX, widthOf, rest[n..], x, y, rest[..n])
  {
  }

  lemma {:induction false} NewlineStep(cells: seq<seq<Pixel>>, width: int, height: int, startX: int,
                                       widthOf: char -> nat, rest: string, x: int, y: int, style: string)
    requires Shaped(cells, width, height) && 0 <= startX && 0 <= x && 0 <= y < height
    requires rest != [] && rest[0] == '\n'
    ensures Run(cells, width, height, startX, widthOf, rest, x, y, style)
         == Run(cells, width, height, startX, widthOf, rest[1..], startX, y + 1, style)
  {
  }

  lemma {:induction false} CharStep(cells: seq<seq<Pixel>>, width: int, height: int, startX: int,
                                    widthOf: char -> nat, rest: string, x: int, y: int, style: string)
    requires Shaped(cells, width, height) && 0 <= startX && 0 <= x && 0 <= y < height
    requires rest != [] && rest[0] != '\n' && SgrLength(rest) == 0
    ensures var rw := widthOf(rest[0]);
      Run(cells, width, height, startX, widthOf, rest, x, y, style)
      == Run(if Fits(x, rw, width) then cells[y := Put(cells[y], x, rest[0], style, rw)] else cells,
             width, height, startX, widthOf, rest[1..], x + rw, y, style)
  {
  }

  /** Writing leaves alone every row above the pen and every column left of where its
      lines start. */
  lemma {:induction false} RunKeepsOutside(cells: seq<seq<Pixel>>, width: int, height: int, startX: int,
                                           widthOf: char -> nat, rest: string, x: int, y: int, style: string)
    requires Shaped(cells, width, height) && 0 <= startX <= x && 0 <= y
    ensures var r := Run(cells, width, height, startX, widthOf, rest, x, y, style);
      forall a, b | 0 <= a < height && 0 <= b < width && (a < y || b < startX) :: r[a][b] == cells[a][b]
    decreases |rest|
  {
    if rest != [] && y < height {
      var n := SgrLength(rest);
      if n > 0 {
        RunKeepsOutside(cells, width, height, startX, widthOf, rest[n..], x, y, rest[..n]);
      } else if rest[0] == '\n' {
        RunKeepsOutside(cells, width, height, startX, widthOf, rest[1..], startX, y + 1, style);
      } else {
        var rw := widthOf(rest[0]);
        var next := if Fits(x, rw, width) then cells[y := Put(cells[y], x, rest[0], style, rw)] else cells;
        RunKeepsOutside(next, width, height, startX, widthOf, rest[1..], x + rw, y, style);
      }
    }
  }

  /** The row with `text` laid over it from column `x`, one cell per character, cut
      off at the row's end. */
  function Overlay(row: seq<Pixel>, x: int, text: string, style: string): (r: seq<Pixel>)
    ensures |r| == |row|
  {
    seq(|row|, j requires 0 <= j < |row| => if x <= j < x + |text| then Pixel(text[j - x], style) else row[j])
  }

  /** One line of text of one-column characters, without escapes, lands on the pen's
      row from the pen's column, in the pen's style; nothing else changes. */
  lemma {:induction false} RunLine(cells: seq<seq<Pixel>>, width: int, height: int, startX: int,
                                   widthOf: char -> nat, text: string, x: int, y: int, style: string)
    requires Shaped(cells, width, height) && 0 <= startX && 0 <= x && 0 <= y < height
    requires forall k | 0 <= k < |text| :: text[k] != Esc && text[k] != '\n' && widthOf(text[k]) == 1
    ensures Run(cells, width, height, startX, widthOf, text, x, y, style)
         == cells[y := Overlay(cells[y], x, text, style)]
    decreases |text|
  {
    if text == [] {
      assert Overlay(cells[y], x, text, style) == cells[y];
    } else {
      var c := text[0];
      var next := if Fits(x, 1, width) then cells[y := Put(cells[y], x, c, style, 1)] else cells;
      assert forall k | 0 <= k < |text[1..]| :: text[1..][k] == text[k + 1];
      RunLine(next, width, height, startX, widthOf, text[1..], x + 1, y, style);
      OverlayStep(cells[y], next[y], x, text, style);
      assert next[y := Overlay(next[y], x + 1, text[1..], style)] == cells[y := Overlay(cells[y], x, text, style)];
    }
  }

  /** Laying the first character and then the rest one column on is laying the whole. */
  lemma {:induction false} OverlayStep(row: seq<Pixel>, placed: seq<Pixel>, x: int, text: string, style: string)
    requires text != [] && 0 <= x
    requires placed == if Fits(x, 1, |row|) then Put(row, x, text[0], style, 1) else row
    ensures Overlay(placed, x + 1, text[1..], style) == Overlay(row, x, text, style)
  {
    var a, b := Overlay(placed, x + 1, text[1..], style), Overlay(row, x, text, style);
    assert forall j | 0 <= j < |row| :: a[j] == b[j];
  }

  /** An SGR sequence takes no cell: it only sets the style of what follows. */
  lemma {:induction false} RunStyled(cells: seq<seq<Pixel>>, width: int, height: int, startX: int,
                                     widthOf: char -> nat, sgr: string, text: string, x: int, y: int, style: string)
    requires Shaped(cells, width, height) && 0 <= startX && 0 <= x && 0 <= y < height
    requires IsSgr(sgr)
    ensures Run(cells, width, height, startX, widthOf, sgr + text, x, y, style)
         == Run(cells, width, height, startX, widthOf, text, x, y, sgr)
  {
    var rest := sgr + text;
    var n := |sgr|;
    assert forall k | 0 <= k < n - 1 :: rest[k] == sgr[k] && sgr[k] != 'm' by {
      assert forall k | 2 <= k < n - 1 :: SgrParam(sgr[k]);
    }
    assert rest[n - 1] == 'm';
    assert IndexOfM(rest) == n - 1;
    assert rest[..n] == sgr && rest[n..] == text;
    assert sgr[0..n] == sgr;
    assert SgrLength(rest) == n;
  }

  /** The pattern is not anchored: an escape followed by anything up to the first `m`
      sets the style whenever an SGR sequence ends that stretch, and the stray
      characters before it vanish into the style. */
  lemma {:induction false} UnanchoredStyle()
    ensures var s := [Esc, 'x', Esc, '[', '1', 'm'];
      ContainsSgr(s) && !IsSgr(s)
  {
    var s := [Esc, 'x', Esc, '[', '1', 'm'];
    assert s[2..6] == [Esc, '[', '1', 'm'];
    assert IsSgr(s[2..6]);
  }

  /** A newline takes no cell: writing goes on at the start column of the next row. */
  lemma {:induction false} RunNewline(cells: seq<seq<Pixel>>, width: int, height: int, startX: int,
                                      widthOf: char -> nat, text: string, x: int, y: int, style: string)
    requires Shaped(cells, width, height) && 0 <= startX && 0 <= x && 0 <= y < height
    ensures Run(cells, width, height, startX, widthOf, "\n" + text, x, y, style)
         == Run(cells, width, height, startX, widthOf, text, startX, y + 1, style)
  {
    assert ("\n" + text)[1..] == text;
  }

  /** `height` rows of `width` blank cells. */
  function BlankCells(width: nat, height: nat): (cells: seq<seq<Pixel>>)
    ensures Shaped(cells, width, height)
  {
    seq(height, _ => seq(width, _ => Blank))
  }

  /** No cell of `row` holds a newline, in its character or its style. */
  predicate NewlineFree(row: seq<Pixel>) {
    forall j | 0 <= j < |row| :: row[j].ch != '\n' && '\n' !in row[j].style
  }

  /** `s` holds no newline. */
  predicate OneLine(s: string) {
    '\n' !in s
  }

  /** Two strings joined hold no newline exactly when neither does. */
  lemma {:induction false} OneLineAppend(a: string, b: string)
    ensures OneLine(a + b) <==> OneLine(a) && OneLine(b)
  {
    if !OneLine(a) {
      var i :| 0 <= i < |a| && a[i] == '\n';
      assert (a + b)[i] == '\n';
    }
    if !OneLine(b) {
      var i :| 0 <= i < |b| && b[i] == '\n';
      assert (a + b)[|a| + i] == '\n';
    }
  }

  /** The style in effect after the first `n` cells of a row are rendered: that of the
      last one that is not padding, none at the start. */
  function ActiveStyle(row: seq<Pixel>, n: nat): string
    requires n <= |row|
  {
    if n == 0 then "" else if row[n - 1].ch == Pad then ActiveStyle(row, n - 1) else row[n - 1].style
  }

  /** What one cell adds to the output: nothing for padding; otherwise a reset and the
      cell's style when the style changes, then the character. */
  function CellOut(p: Pixel, active: string): (out: string)
    ensures p.ch != '\n' && '\n' !in p.style ==> OneLine(out)
  {
    assert Reset == [Esc, '[', '0', 'm'];
    if p.ch == Pad then ""
    else (if p.style != active then Reset + p.style else "") + [p.ch]
  }

  /** The output for the first `n` cells of a row. */
  function RowPrefix(row: seq<Pixel>, n: nat): (out: string)
    requires n <= |row|
    ensures NewlineFree(row) ==> OneLine(out)
  {
    if n == 0 then ""
    else
      var before := RowPrefix(row, n - 1);
      var cell := CellOut(row[n - 1], ActiveStyle(row, n - 1));
      OneLineAppend(before, cell);
      before + cell
  }

  /** A rendered row: its cells, then a reset. */
  function RenderRow(row: seq<Pixel>): string {
    RowPrefix(row, |row|) + Reset
  }

  /** The rendered rows. */
  function RenderRows(cells: seq<seq<Pixel>>): (lines: seq<string>)
    ensures |lines| == |cells|
  {
    seq(|cells|, y requires 0 <= y < |cells| => RenderRow(cells[y]))
  }

  /** The rendered grid: the rendered rows joined by newlines, none after the last. */
  function Rendered(cells: seq<seq<Pixel>>): string {
    JoinLines(RenderRows(cells))
  }

  /** A row of unstyled characters, none of them padding, renders as those characters. */
  lemma {:induction false} PlainRow(row: seq<Pixel>, n: nat)
    requires n <= |row| && forall j | 0 <= j < |row| :: row[j].style == "" && row[j].ch != Pad
    ensures RowPrefix(row, n) == seq(n, j requires 0 <= j < n => row[j].ch)
  {
    if n > 0 {
      PlainRow(row, n - 1);
      assert ActiveStyle(row, n - 1) == "" by {
        if n - 1 > 0 { assert row[n - 2].style == ""; }
      }
    }
  }

  /** A row whose cells are all in one style renders as one reset and that style, the
      characters other than padding, and the closing reset. */
  lemma {:induction false} OneStyleRow(row: seq<Pixel>, style: string)
    requires style != "" && |row| > 0 && row[0].ch != Pad
    requires forall j | 0 <= j < |row| :: row[j].style == style
    ensures RenderRow(row) == Reset + style + Visible(row, |row|) + Reset
  {
    OneStylePrefix(row, style, |row|);
  }

  /** The characters of the first `n` cells other than padding. */
  function Visible(row: seq<Pixel>, n: nat): string
    requires n <= |row|
  {
    if n == 0 then "" else Visible(row, n - 1) + (if row[n - 1].ch == Pad then "" else [row[n - 1].ch])
  }

  lemma {:induction false} OneStylePrefix(row: seq<Pixel>, style: string, n: nat)
    requires style != "" && 0 < n <= |row| && row[0].ch != Pad
    requires forall j | 0 <= j < |row| :: row[j].style == style
    ensures RowPrefix(row, n) == Reset + style + Visible(row, n) && ActiveStyle(row, n) == style
  {
    if n == 1 {
      assert RowPrefix(row, 1) == CellOut(row[0], "");
    } else {
      OneStylePrefix(row, style, n - 1);
      assert row[n - 1].style == style;
    }
  }

  /** A fresh grid renders as rows of spaces, each closed by a reset. */
  lemma {:induction false} BlankRender(width: nat, height: nat)
    ensures RenderRows(BlankCells(width, height)) == seq(height, _ => seq(width, _ => ' ') + Reset)
  {
    var cells := BlankCells(width, height);
    forall y | 0 <= y < height
      ensures RenderRow(cells[y]) == seq(width, _ => ' ') + Reset
    {
      PlainRow(cells[y], width);
      assert seq(width, j requires 0 <= j < width => cells[y][j].ch) == seq(width, _ => ' ');
    }
  }

  /** The output has one line per row when no cell holds a newline: splitting it at
      its newlines gives back the rendered rows. */
  lemma {:induction false} RenderLines(cells: seq<seq<Pixel>>)
    requires |cells| >= 1
    requires forall y | 0 <= y < |cells| :: NewlineFree(cells[y])
    ensures SplitLines(Rendered(cells)) == RenderRows(cells)
  {
    var lines := RenderRows(cells);
    forall l | l in lines ensures '\n' !in l {
      var y :| 0 <= y < |cells| && lines[y] == l;
      assert Reset == [Esc, '[', '0', 'm'];
      OneLineAppend(RowPrefix(cells[y], |cells[y]|), Reset);
    }
    SplitJoin(lines);
  }

  /** Joining one more line adds a newline and that line. */
  lemma {:induction false} JoinSnoc(lines: seq<string>, line: string)
    requires lines != []
    ensures JoinLines(lines + [line]) == JoinLines(lines) + "\n" + line
    decreases |lines|
  {
    if |lines| > 1 {
      JoinSnoc(lines[1..], line);
      assert (lines + [line])[1..] == lines[1..] + [line];
    } else {
      assert (lines + [line])[1..] == [line];
    }
  }

  /** The search in `Write` for the 'm' that ends an escape sequence starting at
      `content[i]`: its position, or -1 when there is none. */
  method SgrEnd(content: string, i: int) returns (end: int)
    requires 0 <= i <= |content|
    ensures end == (if IndexOfM(content[i..]) == -1 then -1 else i + IndexOfM(content[i..]))
  {
    end := -1;
    var j := i;
    while j < |content|
      invariant i <= j <= |content| && forall k | i <= k < j :: content[k] != 'm'
    {
      if content[j] == 'm' {
        end := j;
        break;
      }
      j := j + 1;
    }
    ghost var rest := content[i..];
    assert forall k | 0 <= k < |rest| :: rest[k] == content[i + k];
  }

  /** The test in `Write` for a style change at `content[i]`: an escape, an `m` further
      on, and an SGR sequence in between. The length of the change, or 0. */
  method SgrAt(content: string, i: int) returns (n: int)
    requires 0 <= i < |content|
    ensures n == SgrLength(content[i..])
  {
    n := 0;
    if content[i] == Esc {
      var end := SgrEnd(content, i);
      if end != -1 {
        var sgr := content[i..end + 1];
        assert sgr == content[i..][..end + 1 - i];
        if ContainsSgr(sgr) {
          n := end + 1 - i;
        }
      }
    }
  }

  /** The grid (`Grid`): its size, and its rows of cells. */
  class Grid {
    const width: int
    const height: int
    const rows: array2<Pixel>

    /** The rows are `height` by `width`. */
    predicate Valid()
      reads this
    {
      rows.Length0 == height && rows.Length1 == width
    }

    /** The cells, row by row. */
    function Cells(): (cells: seq<seq<Pixel>>)
      reads this, rows
      requires Valid()
      ensures Shaped(cells, width, height)
    {
      seq(height, y requires 0 <= y < height reads rows =>
        seq(width, x requires 0 <= x < width reads rows => rows[y, x]))
    }

    /** `NewGrid`: `h` rows of `w` blank cells. */
    constructor (w: int, h: int)
      requires 0 <= w && 0 <= h
      ensures Valid() && width == w && height == h && fresh(rows)
      ensures Cells() == BlankCells(w, h)
    {
      width, height := w, h;
      rows := new Pixel[h, w];
      new;
      for i := 0 to h
        invariant forall a, b | 0 <= a < i && 0 <= b < w :: rows[a, b] == Blank
      {
        for j := 0 to w
          invariant forall a, b | 0 <= a < i && 0 <= b < w :: rows[a, b] == Blank
          invariant forall b | 0 <= b < j :: rows[i, b] == Blank
        {
          rows[i, j] := Blank;
        }
      }
      assert forall y | 0 <= y < h :: Cells()[y] == BlankCells(w, h)[y];
    }

    /** Stores a character of width `rw` at column `x` of row `y` and pads the
        columns it also covers. */
    method Draw(x: int, y: int, r: char, style: string, rw: int)
      requires Valid() && 0 <= y < height && 0 <= x && Fits(x, rw, width)
      modifies rows
      ensures Valid()
      ensures Cells() == old(Cells())[y := Put(old(Cells())[y], x, r, style, rw)]
    {
      ghost var before := Cells();
      rows[y, x] := Pixel(r, style);
      var k := 1;
      while k < rw
        invariant 1 <= k && (rw > 0 ==> k <= rw)
        invariant forall a, b | 0 <= a < height && 0 <= b < width ::
          rows[a, b] == if a == y && (b == x || x < b < x + k) then Put(before[y], x, r, style, rw)[b] else before[a][b]
      {
        if x + k < width {
          rows[y, x + k] := Pixel(Pad, style);
        }
        k := k + 1;
      }
      assert forall a | 0 <= a < height :: Cells()[a] == before[y := Put(before[y], x, r, style, rw)][a];
    }

    /** `Write`: writes `content` from column `startX` of row `startY`, with the
        display width of each character given by `widthOf`. */
    method Write(startX: int, startY: int, content: string, widthOf: char -> nat)
      requires Valid() && 0 <= startX && 0 <= startY
      modifies rows
      ensures Valid()
      ensures Cells() == Run(old(Cells()), width, height, startX, widthOf, content, startX, startY, "")
    {
      ghost var goal := Run(Cells(), width, height, startX, widthOf, content, startX, startY, "");
      var x, y := startX, startY;
      var currentStyle := "";
      var runes := content;
      var i := 0;
      while i < |runes|
        invariant 0 <= i <= |runes| && 0 <= x && 0 <= y && Valid()
        invariant goal == Run(Cells(), width, height, startX, widthOf, runes[i..], x, y, currentStyle)
        decreases |runes| - i
      {
        if y >= height {
          break;
        }
        i, x, y, currentStyle := WriteStep(startX, runes, widthOf, i, x, y, currentStyle);
      }
    }

    /** One turn of `Write`'s loop at `content[i]`: an SGR sequence ending at the next
        'm' sets the style, a newline moves to `startX` of the next row, and any other
        character is drawn when it fits and advances the pen by its width. What is
        still to be written is the same afterwards as before. */
    method WriteStep(startX: int, content: string, widthOf: char -> nat, i: int, x: int, y: int, style: string)
      returns (i': int, x': int, y': int, style': string)
      requires Valid() && 0 <= startX && 0 <= i < |content| && 0 <= x && 0 <= y < height
      modifies rows
      ensures Valid() && i < i' <= |content| && 0 <= x' && 0 <= y'
      ensures Run(old(Cells()), width, height, startX, widthOf, content[i..], x, y, style)
           == Run(Cells(), width, height, startX, widthOf, content[i'..], x', y', style')
    {
      ghost var rest := content[i..];
      ghost var cells := Cells();
      var n := SgrAt(content, i);
      assert Cells() == cells;
      if n > 0 {
        StyleStep(cells, width, height, startX, widthOf, rest, x, y, style);
        assert content[i + n..] == rest[n..] && content[i..i + n] == rest[..n];
        return i + n, x, y, content[i..i + n];
      }
      i' := i + 1;
      assert content[i'..] == rest[1..];
      if content[i] == '\n' {
        NewlineStep(cells, width, height, startX, widthOf, rest, x, y, style);
        return i', startX, y + 1, style;
      }
      x' := WriteChar(startX, content, i, widthOf, x, y, style);
      y', style' := y, style;
    }

    /** The last case of `Write`'s loop: the character `content[i]` is drawn under the
        intended guard, and the pen moves right by its width. */
    method WriteChar(startX: int, content: string, i: int, widthOf: char -> nat, x: int, y: int, style: string)
      returns (x': int)
      requires Valid() && 0 <= startX && 0 <= x && 0 <= y < height && 0 <= i < |content|
      requires content[i] != '\n' && SgrLength(content[i..]) == 0
      modifies rows
      ensures Valid() && x' == x + widthOf(content[i])
      ensures Run(old(Cells()), width, height, startX, widthOf, content[i..], x, y, style)
           == Run(Cells(), width, height, startX, widthOf, content[i + 1..], x', y, style)
    {
      ghost var cells := Cells();
      ghost var rest := content[i..];
      assert content[i + 1..] == rest[1..];
      var r := content[i];
      var rw := widthOf(r);
      CharStep(cells, width, height, startX, widthOf, rest, x, y, style);
      if x + rw <= width && x < width {
        Draw(x, y, r, style, rw);
      }
      assert Cells() == if Fits(x, rw, width) then cells[y := Put(cells[y], x, r, style, rw)] else cells;
      x' := x + rw;
    }

    /** `Render`: the grid as terminal text. */
    method Render() returns (s: string)
      requires Valid()
      ensures s == Rendered(Cells())
    {
      ghost var cells := Cells();
      var b := "";
      for y := 0 to height
        invariant y == 0 ==> b == ""
        invariant y > 0 ==> b == JoinLines(RenderRows(cells[..y])) + (if y < height then "\n" else "")
      {
        var line := RenderRowAt(y);
        assert Cells() == cells;
        RowsStep(cells, y);
        b := b + line;
        if y < height - 1 {
          b := b + "\n";
        }
      }
      assert cells[..height] == cells;
      s := b;
    }

    /** The body of `Render`'s loop over the columns of row `y`: padding is skipped, a
        change of style emits a reset and the new style, and the row ends with a
        reset. */
    method RenderRowAt(y: int) returns (line: string)
      requires Valid() && 0 <= y < height
      ensures line == RenderRow(Cells()[y])
    {
      ghost var row := Cells()[y];
      line := "";
      var currentActiveStyle := "";
      for x := 0 to width
        invariant line == RowPrefix(row, x) && currentActiveStyle == ActiveStyle(row, x)
      {
        var p := rows[y, x];
        assert p == row[x];
        PrefixStep(row, x, line, currentActiveStyle);
        if p.ch == Pad {
          continue;
        }
        if p.style != currentActiveStyle {
          line := line + Reset;
          if p.style != "" {
            line := line + p.style;
          }
          currentActiveStyle := p.style;
        }
        line := line + [p.ch];
      }
      line := line + Reset;
    }
  }

  /** One more cell of a row, in the order `Render` appends its parts. */
  lemma {:induction false} PrefixStep(row: seq<Pixel>, x: nat, line: string, active: string)
    requires x < |row| && line == RowPrefix(row, x) && active == ActiveStyle(row, x)
    ensures var p := row[x];
      if p.ch == Pad then RowPrefix(row, x + 1) == line && ActiveStyle(row, x + 1) == active
      else (ActiveStyle(row, x + 1) == p.style
            && RowPrefix(row, x + 1) == (if p.style == active then line
                                         else if p.style == "" then line + Reset
                                         else line + Reset + p.style) + [p.ch])
  {
    var p := row[x];
    if p.ch != Pad && p.style != active {
      assert line + (Reset + p.style + [p.ch]) == line + Reset + p.style + [p.ch];
      if p.style == "" {
        assert Reset + p.style == Reset;
      }
    }
  }

  /** The rendered rows up to one more row. */
  lemma {:induction false} RowsStep(cells: seq<seq<Pixel>>, y: nat)
    requires y < |cells|
    ensures RenderRows(cells[..y + 1]) == RenderRows(cells[..y]) + [RenderRow(cells[y])]
    ensures y > 0 ==> JoinLines(RenderRows(cells[..y + 1])) == JoinLines(RenderRows(cells[..y])) + "\n" + RenderRow(cells[y])
    ensures y == 0 ==> JoinLines(RenderRows(cells[..y + 1])) == RenderRow(cells[y])
  {
    assert RenderRows(cells[..y + 1]) == RenderRows(cells[..y]) + [RenderRow(cells[y])];
    if y > 0 {
      JoinSnoc(RenderRows(cells[..y]), RenderRow(cells[y]));
    }
  }
}
