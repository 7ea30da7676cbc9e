/** The buffer diff: which draw commands turn the previous frame on the terminal into the current one. */
module TerminalGrid {
  import opened Numbers
  import opened TerminalScreen
  import opened Wrappers

  datatype Buffer = Buffer(width: nat, height: nat, content: seq<Cell>)

  datatype DrawCommand =
    | Put(x: nat, y: nat, cell: Cell, prefillWidth: nat)
    | ClearToEnd(x: nat, y: nat, bg: Color)

  // ----- what a buffer looks like on the screen -----

  ghost predicate WellFormedRow(row: seq<Cell>) {
    && (forall j :: 0 <= j < |row| ==>
          && row[j].diffOption != Skip
          && 1 <= CellWidth(row[j]) <= 2
          && (row[j].symbol == " " ==> CellWidth(row[j]) == 1))
    && (forall j :: IsWide(row, j) ==> j + 1 < |row| && CellWidth(row[j + 1]) == 1)
  }

  function RowOf(buffer: Buffer, y: nat): (row: seq<Cell>)
    requires y < buffer.height && |buffer.content| == buffer.width * buffer.height
    ensures |row| == buffer.width
  {
    RowBounds(buffer.width, buffer.height, y);
    buffer.content[y * buffer.width..(y + 1) * buffer.width]
  }

  lemma RowBounds(width: nat, height: nat, y: nat)
    requires y < height
    ensures 0 <= y * width <= (y + 1) * width <= width * height
    ensures (y + 1) * width == y * width + width
  {
    var n := y + 1;
    assert n * width == y * width + width;
    TimesAtLeast(width, n, height);
  }

  ghost predicate WellFormed(buffer: Buffer) {
    && |buffer.content| == buffer.width * buffer.height
    && forall y :: 0 <= y < buffer.height ==> WellFormedRow(RowOf(buffer, y))
  }

  ghost predicate IsWide(row: seq<Cell>, j: int) {
    0 <= j < |row| && CellWidth(row[j]) == 2
  }

  /** The column is not hidden behind a wide cell. */
  ghost predicate IsLeading(row: seq<Cell>, j: int) {
    0 <= j < |row| && !IsWide(row, j - 1)
  }

  ghost function ShowAt(row: seq<Cell>, j: nat): Column
    requires j < |row|
  {
    if IsWide(row, j - 1) then Tail
    else if IsWide(row, j) then Wide(LookOf(row[j]))
    else Narrow(LookOf(row[j]))
  }

  ghost function ShowRow(row: seq<Cell>): (line: Line)
    ensures |line| == |row|
  {
    seq(|row|, j requires 0 <= j < |row| => ShowAt(row, j))
  }

  ghost function Rows(buffer: Buffer): (rows: seq<seq<Cell>>)
    requires |buffer.content| == buffer.width * buffer.height
    ensures |rows| == buffer.height
  {
    seq(buffer.height, y requires 0 <= y < buffer.height => RowOf(buffer, y))
  }

  ghost function ShowRows(rows: seq<seq<Cell>>): (screen: Screen)
    ensures |screen| == |rows|
  {
    seq(|rows|, y requires 0 <= y < |rows| => ShowRow(rows[y]))
  }

  /** The screen a terminal shows once `buffer` is fully drawn. */
  ghost function Show(buffer: Buffer): (screen: Screen)
    requires |buffer.content| == buffer.width * buffer.height
  {
    ShowRows(Rows(buffer))
  }

  lemma ShownRowIsCoherent(row: seq<Cell>)
    requires WellFormedRow(row)
    ensures Coherent(ShowRow(row))
  {
    var line := ShowRow(row);
    forall j | WideAt(line, j)
      ensures TailAt(line, j + 1)
    {
      assert IsWide(row, j) && IsWide(row, j + 1 - 1);
    }
    forall j | TailAt(line, j)
      ensures WideAt(line, j - 1)
    {
      assert IsWide(row, j - 1) && !IsWide(row, j - 2);
    }
  }

  // ----- running draw commands -----

  function Draw(screen: Screen, command: DrawCommand): (r: Screen)
    ensures |r| == |screen|
  {
    if command.y >= |screen| then screen
    else
      var line := screen[command.y];
      match command
      case Put(x, y, cell, prefillWidth) =>
        var filled :=
          if prefillWidth > 1 then PrintSpaces(line, x, prefillWidth, Styled(" ", StyleOf(cell))) else line;
        screen[y := Print(filled, x, CellWidth(cell), LookOf(cell))]
      case ClearToEnd(x, y, bg) =>
        screen[y := Erase(line, x, bg)]
  }

  function Run(screen: Screen, commands: seq<DrawCommand>): (r: Screen)
    ensures |r| == |screen|
  {
    if commands == [] then screen
    else Draw(Run(screen, commands[..|commands| - 1]), commands[|commands| - 1])
  }

  lemma RunSnoc(screen: Screen, commands: seq<DrawCommand>, command: DrawCommand)
    ensures Run(screen, commands + [command]) == Draw(Run(screen, commands), command)
  {
    assert (commands + [command])[..|commands|] == commands;
  }

  // ----- cell predicates -----

  predicate IsSkipped(cell: Cell) { cell.diffOption.Skip? }

  predicate IsAlwaysUpdated(cell: Cell) { cell.diffOption.AlwaysUpdate? }

  predicate RequiresVisibleCell(cell: Cell, trailingBg: Color) {
    cell.symbol != " " || cell.bg != trailingBg || cell.modifier != {}
  }

  predicate RequiresClear(cell: Cell, clearBg: Color) {
    cell.symbol != " " || cell.bg != clearBg || cell.modifier != {}
  }

  predicate TailStyleMatchesLeading(tail: Cell, leading: Cell) {
    && tail.fg == leading.fg
    && tail.bg == leading.bg
    && tail.underlineColor == leading.underlineColor
    && tail.modifier == leading.modifier
  }

  predicate TailHasVisibleStyle(cell: Cell) {
    cell.fg != Reset || cell.bg != Reset || cell.underlineColor != Reset || cell.modifier != {}
  }

  function WidePrefillWidth(previous: seq<Cell>, current: seq<Cell>, index: nat, rowWidth: nat, width: nat): (r: nat)
    requires index < |current| && |previous| == |current|
    ensures r == 0 || r == width >= 2
  {
    if width <= 1 || rowWidth == 0 then 0
    else
      var rowEnd := (index / rowWidth + 1) * rowWidth;
      var end := Min(Min(Min(index + width, rowEnd), |current|), |previous|);
      var leading := current[index];
      if || Reversed in leading.modifier
         || (exists j :: index + 1 <= j < end && current[j].symbol == " "
                         && TailHasVisibleStyle(current[j]) && TailStyleMatchesLeading(current[j], leading))
         || (exists j :: index + 1 <= j < end && current[j].symbol == " " && previous[j] != current[j])
      then width
      else 0
  }

  // ----- where the visible content of a row ends -----

  ghost predicate NeedsNoCell(cell: Cell, bg: Color) {
    cell.diffOption != AlwaysUpdate && !RequiresVisibleCell(cell, bg)
  }

  /** `r` is the end of the last leading cell that has to be drawn, or 0 when there is none. */
  ghost predicate IsContentEnd(row: seq<Cell>, bg: Color, r: nat) {
    && r <= |row|
    && (forall j :: r <= j < |row| ==> NeedsNoCell(row[j], bg))
    && !IsWide(row, r - 1)
    && (r > 0 ==> exists j :: 0 <= j < r && IsLeading(row, j) && !NeedsNoCell(row[j], bg)
                              && j + CellWidth(row[j]) == r)
  }

  method RowClearFrom(row: seq<Cell>, trailingBg: Color) returns (contentEnd: nat)
    requires WellFormedRow(row)
    ensures IsContentEnd(row, trailingBg, contentEnd)
  {
    hide WellFormedRow;
    hide NeedsNoCell;
    hide IsWide;
    hide IsLeading;
    hide CellWidth;
    contentEnd := 0;
    var column: nat := 0;
    ghost var last: nat := 0;
    FirstCellLeads(row);
    while column < |row|
      invariant column <= |row| && contentEnd <= column
      invariant LoopAt(row, column)
      invariant BareBetween(row, trailingBg, contentEnd, column)
      invariant contentEnd > 0 ==> EndsContent(row, trailingBg, last, contentEnd)
    {
      var cell := row[column];
      var width := Max(CellWidth(cell), 1);
      NextCellLeads(row, column);
      if !IsSkipped(cell) && (IsAlwaysUpdated(cell) || RequiresVisibleCell(cell, trailingBg)) {
        DrawnCellEnds(row, trailingBg, column);
        contentEnd := Min(column + width, |row|);
        last := column;
      } else {
        BareCellFollows(row, trailingBg, contentEnd, column);
      }
      column := column + width;
    }
    ContentEndFound(row, trailingBg, contentEnd, last);
  }

  /** The loop stands at a cell that is not hidden, or behind the last one. */
  ghost predicate LoopAt(row: seq<Cell>, column: nat) {
    if column < |row| then IsLeading(row, column) else column == |row| && !IsWide(row, column - 1)
  }

  ghost predicate BareBetween(row: seq<Cell>, bg: Color, from: nat, to: nat) {
    from <= to <= |row| && forall j :: from <= j < to ==> IsLeading(row, j) && NeedsNoCell(row[j], bg)
  }

  /** Cell `j` has to be drawn and ends at `r`. */
  ghost predicate EndsContent(row: seq<Cell>, bg: Color, j: nat, r: nat) {
    j < r && IsLeading(row, j) && !NeedsNoCell(row[j], bg) && j + CellWidth(row[j]) == r
  }

  lemma FirstCellLeads(row: seq<Cell>)
    ensures LoopAt(row, 0)
  {
  }

  lemma NextCellLeads(row: seq<Cell>, column: nat)
    requires WellFormedRow(row) && column < |row| && LoopAt(row, column)
    ensures !IsSkipped(row[column]) && 1 <= CellWidth(row[column]) && column + CellWidth(row[column]) <= |row|
    ensures LoopAt(row, column + CellWidth(row[column]))
  {
    assert IsWide(row, column) <==> CellWidth(row[column]) == 2;
    assert IsWide(row, column) ==> !IsWide(row, column + 1);
  }

  lemma DrawnCellEnds(row: seq<Cell>, bg: Color, column: nat)
    requires WellFormedRow(row) && column < |row| && LoopAt(row, column)
    requires IsAlwaysUpdated(row[column]) || RequiresVisibleCell(row[column], bg)
    ensures EndsContent(row, bg, column, column + CellWidth(row[column]))
    ensures column + CellWidth(row[column]) <= |row|
    ensures BareBetween(row, bg, column + CellWidth(row[column]), column + CellWidth(row[column]))
  {
    NextCellLeads(row, column);
  }

  lemma BareCellFollows(row: seq<Cell>, bg: Color, contentEnd: nat, column: nat)
    requires WellFormedRow(row) && column < |row| && LoopAt(row, column) && BareBetween(row, bg, contentEnd, column)
    requires !IsAlwaysUpdated(row[column]) && !RequiresVisibleCell(row[column], bg)
    ensures CellWidth(row[column]) == 1 && BareBetween(row, bg, contentEnd, column + 1)
  {
  }

  lemma ContentEndFound(row: seq<Cell>, bg: Color, contentEnd: nat, last: nat)
    requires LoopAt(row, |row|) && BareBetween(row, bg, contentEnd, |row|)
    requires contentEnd > 0 ==> EndsContent(row, bg, last, contentEnd)
    ensures IsContentEnd(row, bg, contentEnd)
  {
    assert contentEnd < |row| ==> IsLeading(row, contentEnd);
  }

  /** Some cell from `clearFrom` on shows, or a wide cell reaches across `clearFrom`. */
  ghost predicate TailShows(row: seq<Cell>, clearFrom: nat, bg: Color) {
    || IsWide(row, clearFrom - 1)
    || exists j :: clearFrom <= j < |row| && RequiresClear(row[j], bg)
  }

  method PreviousTailNeedsClear(row: seq<Cell>, clearFrom: nat, clearBg: Color) returns (needed: bool)
    requires WellFormedRow(row) && clearFrom < |row|
    ensures needed <==> TailShows(row, clearFrom, clearBg)
  {
    var column := 0;
    while column < |row|
      invariant column <= |row|
      invariant column < |row| ==> IsLeading(row, column)
      invariant column >= clearFrom ==> !IsWide(row, clearFrom - 1)
    {
      var cell := row[column];
      var width := Max(CellWidth(cell), 1);
      assert IsWide(row, column) <==> width == 2;
      assert IsWide(row, column) ==> !IsWide(row, column + 1);
      if !IsSkipped(cell) && column < clearFrom && column + width > clearFrom {
        return true;
      }
      column := column + width;
    }
    needed := exists j :: clearFrom <= j < |row| && !IsSkipped(row[j]) && RequiresClear(row[j], clearBg);
  }

  // ----- after the clears -----

  ghost function TrailingBg(row: seq<Cell>): Color {
    if |row| == 0 then Reset else row[|row| - 1].bg
  }

  /** `line` still shows `previous` up to `clearFrom`, except for a wide glyph cut there, and shows
      `current` from `clearFrom` on. */
  ghost predicate ReadyRow(previous: seq<Cell>, current: seq<Cell>, clearFrom: nat, line: Line) {
    && |line| == |current| == |previous|
    && Coherent(line)
    && (forall j :: clearFrom <= j < |line| ==> line[j] == ShowAt(current, j))
    && (forall j :: 0 <= j < clearFrom && j < |line| ==> Kept(previous, clearFrom, line, j))
  }

  ghost predicate Kept(previous: seq<Cell>, clearFrom: nat, line: Line, j: nat)
    requires j < |line| == |previous|
  {
    line[j] == ShowAt(previous, j) || (j == clearFrom - 1 && IsWide(previous, j) && line[j].Torn?)
  }

  lemma BareCellLooks(cell: Cell, bg: Color)
    requires NeedsNoCell(cell, bg)
    ensures cell.symbol == " " && cell.bg == bg && LookOf(cell) == Blank(bg)
  {
  }

  lemma UndrawnCellIsBlank(row: seq<Cell>, bg: Color, clearFrom: nat, j: nat)
    requires WellFormedRow(row) && IsContentEnd(row, bg, clearFrom) && clearFrom <= j < |row|
    ensures ShowAt(row, j) == Narrow(Blank(bg)) && row[j].bg == bg && !IsWide(row, j)
  {
    hide CellWidth;
    hide LookOf;
    BareCellLooks(row[j], bg);
    if j > clearFrom { BareCellLooks(row[j - 1], bg); }
  }

  lemma WideCellEndsContent(row: seq<Cell>, bg: Color, clearFrom: nat, j: nat)
    requires WellFormedRow(row) && IsContentEnd(row, bg, clearFrom) && IsWide(row, j)
    ensures j + 2 <= clearFrom
  {
    if j >= clearFrom {
      UndrawnCellIsBlank(row, bg, clearFrom, j);
    }
    assert j + 1 >= clearFrom ==> IsLeading(row, j + 1);
  }

  lemma ClearedRowIsReady(previous: seq<Cell>, current: seq<Cell>, clearFrom: nat)
    requires WellFormedRow(previous) && WellFormedRow(current) && |previous| == |current|
    requires clearFrom < |current| && IsContentEnd(current, TrailingBg(current), clearFrom)
    ensures ReadyRow(previous, current, clearFrom,
                     Erase(ShowRow(previous), clearFrom, TrailingBg(current)))
  {
    var shown := ShowRow(previous);
    ShownRowIsCoherent(previous);
    EraseKeepsCoherent(shown, clearFrom, TrailingBg(current));
    var line := Erase(shown, clearFrom, TrailingBg(current));
    forall j | clearFrom <= j < |line|
      ensures line[j] == ShowAt(current, j)
    {
      UndrawnCellIsBlank(current, TrailingBg(current), clearFrom, j);
    }
    ErasedRowIsKept(previous, clearFrom, TrailingBg(current));
  }

  lemma ErasedRowIsKept(previous: seq<Cell>, clearFrom: nat, bg: Color)
    requires WellFormedRow(previous) && clearFrom < |previous|
    ensures forall j :: 0 <= j < clearFrom ==> Kept(previous, clearFrom, Erase(ShowRow(previous), clearFrom, bg), j)
  {
    var shown := ShowRow(previous);
    forall j | 0 <= j < clearFrom
      ensures Kept(previous, clearFrom, Erase(shown, clearFrom, bg), j)
    {
      assert shown[j] == ShowAt(previous, j);
      if j + 1 == clearFrom && shown[clearFrom].Tail? {
        assert IsWide(previous, clearFrom - 1);
      }
    }
  }

  /** A column of a tail that shows nothing. */
  lemma BareCellIsBlank(row: seq<Cell>, clearFrom: nat, bg: Color, j: nat)
    requires WellFormedRow(row) && clearFrom <= j < |row| && !TailShows(row, clearFrom, bg)
    ensures ShowAt(row, j) == Narrow(Blank(bg))
  {
    assert !RequiresClear(row[j], bg);
    assert !IsWide(row, j - 1) by {
      if j > clearFrom { assert !RequiresClear(row[j - 1], bg); }
    }
  }

  lemma UnclearedRowIsReady(previous: seq<Cell>, current: seq<Cell>, clearFrom: nat)
    requires WellFormedRow(previous) && WellFormedRow(current) && |previous| == |current|
    requires IsContentEnd(current, TrailingBg(current), clearFrom)
    requires clearFrom == |current| || !TailShows(previous, clearFrom, TrailingBg(current))
    ensures ReadyRow(previous, current, clearFrom, ShowRow(previous))
  {
    hide Coherent;
    hide IsContentEnd;
    hide WellFormedRow;
    ShownRowIsCoherent(previous);
    var line := ShowRow(previous);
    forall j | clearFrom <= j < |line|
      ensures line[j] == ShowAt(current, j)
    {
      UndrawnCellIsBlank(current, TrailingBg(current), clearFrom, j);
      BareCellIsBlank(previous, clearFrom, TrailingBg(current), j);
    }
  }

  // ----- the puts of one row -----

  ghost function SkipAt(current: seq<Cell>, x: int): nat {
    if IsWide(current, x - 1) then 1 else 0
  }

  /** The first column the put loop has not settled when it arrives at `x`. */
  ghost function Frontier(current: seq<Cell>, x: nat): nat {
    x + SkipAt(current, x)
  }

  /** Progress of the put loop within one row: everything left of the frontier already shows `current`;
      everything right of it is as the clears left it, except that the frontier column itself may be
      torn, in which case `previous` had a wide cell ending there. */
  ghost predicate PartlyDrawn(previous: seq<Cell>, current: seq<Cell>, clearFrom: nat, frontier: nat, line: Line) {
    && |line| == |current| == |previous|
    && Coherent(line)
    && (forall j :: 0 <= j < |line| && (j < frontier || clearFrom <= j) ==> line[j] == ShowAt(current, j))
    && (forall j :: frontier <= j < clearFrom && j < |line| ==>
          || Kept(previous, clearFrom, line, j)
          || (j == frontier && line[j].Torn? && IsWide(previous, j - 1)))
  }

  ghost predicate PutDue(previous: seq<Cell>, current: seq<Cell>, clearFrom: nat, x: nat)
    requires x < |current| == |previous|
  {
    && IsLeading(current, x)
    && x < clearFrom
    && (IsAlwaysUpdated(current[x]) || current[x] != previous[x] || IsWide(previous, x - 1))
  }

  /** Glyphs fit before `clearFrom` and do not overlap. */
  ghost predicate Tiled(row: seq<Cell>, clearFrom: nat) {
    && (forall j :: 0 <= j < |row| ==> 1 <= CellWidth(row[j]) <= 2)
    && (forall j :: IsWide(row, j) ==> j + 2 <= clearFrom <= |row| && CellWidth(row[j + 1]) == 1)
  }

  lemma WellFormedRowIsTiled(row: seq<Cell>, bg: Color, clearFrom: nat)
    requires WellFormedRow(row) && IsContentEnd(row, bg, clearFrom)
    ensures clearFrom <= |row| && Tiled(row, clearFrom)
  {
    forall j | IsWide(row, j)
      ensures j + 2 <= clearFrom
    {
      WideCellEndsContent(row, bg, clearFrom, j);
    }
  }

  lemma StepWithoutPut(previous: seq<Cell>, current: seq<Cell>, clearFrom: nat, x: nat, line: Line)
    requires x < |current| == |previous| && clearFrom <= |current| && Tiled(current, clearFrom)
    requires PartlyDrawn(previous, current, clearFrom, Frontier(current, x), line)
    requires !PutDue(previous, current, clearFrom, x)
    ensures PartlyDrawn(previous, current, clearFrom, Frontier(current, x + 1), line)
  {
    if IsLeading(current, x) {
      if x < clearFrom {
        assert current[x] == previous[x] && !IsWide(previous, x - 1);
        assert IsWide(current, x) <==> IsWide(previous, x);
        assert Kept(previous, clearFrom, line, x);
        assert line[x] == ShowAt(previous, x) == ShowAt(current, x);
        if IsWide(current, x) {
          assert WideAt(line, x) && TailAt(line, x + 1);
        }
      }
    } else {
      assert !IsWide(current, x);
    }
  }

  lemma PutTearsNothingDrawn(previous: seq<Cell>, current: seq<Cell>, clearFrom: nat, x: nat, line: Line)
    requires x < |current| == |previous| && clearFrom <= |current| && Tiled(current, clearFrom)
    requires PartlyDrawn(previous, current, clearFrom, x, line)
    requires IsLeading(current, x) && x < clearFrom
    ensures !TailAt(line, x)
    ensures var end := x + CellWidth(current[x]);
            end <= clearFrom && (WideAt(line, end - 1) ==> end < clearFrom && IsWide(previous, end - 1))
  {
    var end := x + CellWidth(current[x]);
    assert IsWide(current, x) <==> end == x + 2;
    assert TailAt(line, x) ==> WideAt(line, x - 1);
    assert x > 0 ==> line[x - 1] == ShowAt(current, x - 1);
    assert Kept(previous, clearFrom, line, end - 1) || !WideAt(line, end - 1);
    assert WideAt(line, end - 1) ==> TailAt(line, end);
    assert clearFrom <= end < |line| ==> line[end] == ShowAt(current, end);
  }

  lemma StepWithPut(previous: seq<Cell>, current: seq<Cell>, clearFrom: nat, x: nat, line: Line)
    requires x < |current| == |previous| && clearFrom <= |current| && Tiled(current, clearFrom)
    requires PartlyDrawn(previous, current, clearFrom, x, line)
    requires IsLeading(current, x) && x < clearFrom
    ensures PartlyDrawn(previous, current, clearFrom, x + CellWidth(current[x]),
                        Print(line, x, CellWidth(current[x]), LookOf(current[x])))
  {
    var width, look := CellWidth(current[x]), LookOf(current[x]);
    var end := x + width;
    PutTearsNothingDrawn(previous, current, clearFrom, x, line);
    PrintKeepsCoherent(line, x, width, look);
    var line' := Print(line, x, width, look);
    forall j | 0 <= j < |line'| && (j < end || clearFrom <= j)
      ensures line'[j] == ShowAt(current, j)
    {
      assert j < x || end <= j ==> line'[j] == line[j];
    }
    forall j | end <= j < clearFrom && j < |line'|
      ensures Kept(previous, clearFrom, line', j) || (j == end && line'[j].Torn? && IsWide(previous, j - 1))
    {
      assert j > end ==> line'[j] == line[j];
    }
  }

  // ----- the diff -----

  lemma PositionInRow(index: nat, width: nat, y: nat, x: nat)
    requires index == y * width + x && x < width
    ensures index / width == y && index % width == x
  {
    DivisionIs(index, width, y);
  }

  ghost predicate SameArea(previous: Buffer, current: Buffer) {
    && previous.width == current.width
    && previous.height == current.height
    && |previous.content| == |current.content| == current.width * current.height
  }

  ghost predicate SameShape(previous: Buffer, current: Buffer) {
    SameArea(previous, current) && WellFormed(previous) && WellFormed(current)
  }

  ghost predicate HasContentFrom(row: seq<Cell>, x: nat) {
    exists j :: x <= j < |row| && !NeedsNoCell(row[j], TrailingBg(row))
  }

  lemma ContentEndMeaning(row: seq<Cell>, clearFrom: nat, x: nat)
    requires forall j :: 0 <= j < |row| ==> 1 <= CellWidth(row[j]) <= 2
    requires IsContentEnd(row, TrailingBg(row), clearFrom)
    ensures IsLeading(row, x) ==> (HasContentFrom(row, x) <==> x < clearFrom)
  {
    if clearFrom > 0 {
      var j :| 0 <= j < clearFrom && IsLeading(row, j) && !NeedsNoCell(row[j], TrailingBg(row))
               && j + CellWidth(row[j]) == clearFrom;
      assert j < x < clearFrom ==> x == j + 1 && IsWide(row, x - 1);
    }
  }

  /** The command draws what the terminal may not show yet: a put draws a cell of the row's content
      that changed, asks to be drawn always, or has lost its left half; a clear erases something
      visible behind the content. */
  ghost predicate JustifiedInRow(before: seq<Cell>, row: seq<Cell>, command: DrawCommand)
    requires |before| == |row|
  {
    && command.x < |row|
    && match command
       case Put(x, y, cell, prefillWidth) =>
         && cell == row[x]
         && IsLeading(row, x)
         && (row[x].diffOption == AlwaysUpdate || row[x] != before[x] || IsWide(before, x - 1))
         && HasContentFrom(row, x)
       case ClearToEnd(x, y, bg) =>
         && bg == TrailingBg(row)
         && IsContentEnd(row, bg, x)
         && TailShows(before, x, bg)
  }

  ghost predicate Justified(previous: Buffer, current: Buffer, command: DrawCommand)
    requires SameShape(previous, current)
  {
    && command.y < current.height
    && JustifiedInRow(RowOf(previous, command.y), RowOf(current, command.y), command)
  }

  /** The column needs a put: a glyph begins there that may differ from what the screen shows, and it is not
      behind everything that has to be drawn. */
  ghost predicate NeedsPut(before: seq<Cell>, row: seq<Cell>, x: nat) {
    && x < |row| == |before| && IsLeading(row, x) && HasContentFrom(row, x)
    && (row[x].diffOption == AlwaysUpdate || row[x] != before[x] || IsWide(before, x - 1))
  }

  ghost predicate HasPut(commands: seq<DrawCommand>, x: nat, y: nat) {
    exists i :: 0 <= i < |commands| && commands[i].Put? && commands[i].x == x && commands[i].y == y
  }

  ghost predicate ClearsThenPuts(commands: seq<DrawCommand>, clears: nat) {
    && clears <= |commands|
    && (forall i :: 0 <= i < |commands| ==> (commands[i].ClearToEnd? <==> i < clears))
  }

  ghost predicate DrawnBefore(commands: seq<DrawCommand>, i: int, j: int)
    requires 0 <= i < j < |commands|
  {
    var a, b := commands[i], commands[j];
    a.ClearToEnd? == b.ClearToEnd? ==> a.y < b.y || (a.y == b.y && a.x < b.x)
  }

  /** Puts go through the screen in reading order, and clears from top to bottom. */
  ghost predicate InReadingOrder(commands: seq<DrawCommand>) {
    forall i, j :: 0 <= i < j < |commands| ==> DrawnBefore(commands, i, j)
  }

  lemma UnchangedTailNeedsNoClear(row: seq<Cell>, bg: Color, clearFrom: nat)
    requires WellFormedRow(row) && IsContentEnd(row, bg, clearFrom) && clearFrom < |row|
    ensures !TailShows(row, clearFrom, bg)
  {
    forall j | clearFrom <= j < |row|
      ensures !RequiresClear(row[j], bg)
    {
      assert NeedsNoCell(row[j], bg);
    }
    assert IsLeading(row, clearFrom);
  }

  /** Drawing the same frame again costs nothing, unless a cell asks to be drawn always. */
  lemma UnchangedFrameNeedsNoCommand(frame: Buffer, command: DrawCommand)
    requires WellFormed(frame)
    requires forall j :: 0 <= j < |frame.content| ==> !IsAlwaysUpdated(frame.content[j])
    ensures !Justified(frame, frame, command)
  {
    if command.y < frame.height && command.x < frame.width {
      var row := RowOf(frame, command.y);
      RowBounds(frame.width, frame.height, command.y);
      assert row[command.x] == frame.content[command.y * frame.width + command.x];
      if command.ClearToEnd? && IsContentEnd(row, command.bg, command.x) {
        UnchangedTailNeedsNoClear(row, command.bg, command.x);
      }
    }
  }

  // ----- the put loop over the rows of a frame -----

  ghost predicate RowReady(before: seq<Cell>, row: seq<Cell>, clearFrom: nat, line: Line) {
    && WellFormedRow(before)
    && WellFormedRow(row)
    && IsContentEnd(row, TrailingBg(row), clearFrom)
    && ReadyRow(before, row, clearFrom, line)
  }

  ghost predicate RowPartlyDrawn(before: seq<Cell>, row: seq<Cell>, clearFrom: nat, x: nat, line: Line) {
    && WellFormedRow(before)
    && WellFormedRow(row)
    && IsContentEnd(row, TrailingBg(row), clearFrom)
    && PartlyDrawn(before, row, clearFrom, Frontier(row, x), line)
  }

  lemma PutDrawsOneGlyph(screen: Screen, x: nat, y: nat, cell: Cell, prefillWidth: nat)
    requires y < |screen| && Coherent(screen[y])
    requires 1 <= CellWidth(cell) <= 2 && x + CellWidth(cell) <= |screen[y]|
    requires prefillWidth == 0 || prefillWidth == CellWidth(cell) == 2
    ensures Draw(screen, Put(x, y, cell, prefillWidth))
            == screen[y := Print(screen[y], x, CellWidth(cell), LookOf(cell))]
  {
    if prefillWidth == 2 {
      PrefillIsInvisible(screen[y], x, Styled(" ", StyleOf(cell)), LookOf(cell));
    }
  }

  /** One iteration of the put loop, whether or not it emits a put. */
  lemma RowStep(before: seq<Cell>, row: seq<Cell>, clearFrom: nat, screen: Screen, y: nat, x: nat,
                screen': Screen, prefillWidth: nat)
    requires y < |screen| && x < |row|
    requires RowPartlyDrawn(before, row, clearFrom, x, screen[y])
    requires prefillWidth == 0 || prefillWidth == CellWidth(row[x]) >= 2
    requires screen' == if PutDue(before, row, clearFrom, x)
                        then Draw(screen, Put(x, y, row[x], prefillWidth)) else screen
    ensures |screen'| == |screen| && (forall r :: 0 <= r < |screen| && r != y ==> screen'[r] == screen[r])
    ensures RowPartlyDrawn(before, row, clearFrom, x + 1, screen'[y])
  {
    WellFormedRowIsTiled(row, TrailingBg(row), clearFrom);
    assert IsWide(row, x) <==> CellWidth(row[x]) == 2;
    if PutDue(before, row, clearFrom, x) {
      PutDrawsOneGlyph(screen, x, y, row[x], prefillWidth);
      StepWithPut(before, row, clearFrom, x, screen[y]);
      assert x + CellWidth(row[x]) == Frontier(row, x + 1);
    } else {
      StepWithoutPut(before, row, clearFrom, x, screen[y]);
    }
  }

  lemma WholeRowDrawn(before: seq<Cell>, row: seq<Cell>, clearFrom: nat, line: Line)
    requires RowPartlyDrawn(before, row, clearFrom, |row|, line)
    ensures line == ShowRow(row)
    ensures !IsWide(before, |row| - 1) && !IsWide(row, |row| - 1)
  {
  }

  /** After `y` rows of the clear loop. */
  ghost predicate ClearedUpTo(
    before: seq<seq<Cell>>, rows: seq<seq<Cell>>, clearFroms: seq<nat>, screen: Screen, y: nat)
  {
    && |before| == |rows| == |screen| && y == |clearFroms| <= |rows|
    && (forall r :: 0 <= r < y ==> RowReady(before[r], rows[r], clearFroms[r], screen[r]))
    && (forall r :: y <= r < |rows| ==> screen[r] == ShowRow(before[r]))
  }

  lemma ClearStep(before: seq<seq<Cell>>, rows: seq<seq<Cell>>, clearFroms: seq<nat>, screen: Screen,
                  y: nat, clearFrom: nat, screen': Screen, cleared: bool)
    requires ClearedUpTo(before, rows, clearFroms, screen, y) && y < |rows|
    requires WellFormedRow(before[y]) && WellFormedRow(rows[y]) && |before[y]| == |rows[y]|
    requires IsContentEnd(rows[y], TrailingBg(rows[y]), clearFrom)
    requires cleared <==> clearFrom < |rows[y]| && TailShows(before[y], clearFrom, TrailingBg(rows[y]))
    requires screen' == if cleared then Draw(screen, ClearToEnd(clearFrom, y, TrailingBg(rows[y]))) else screen
    ensures ClearedUpTo(before, rows, clearFroms + [clearFrom], screen', y + 1)
  {
    if cleared {
      ClearedRowIsReady(before[y], rows[y], clearFrom);
    } else {
      UnclearedRowIsReady(before[y], rows[y], clearFrom);
    }
  }

  /** When the put loop arrives at column `x` of row `y`. */
  ghost predicate DrawnUpTo(
    before: seq<seq<Cell>>, rows: seq<seq<Cell>>, clearFroms: seq<nat>, screen: Screen, y: nat, x: nat)
  {
    && |before| == |rows| == |screen| == |clearFroms|
    && y <= |rows|
    && (forall r :: 0 <= r < y ==> screen[r] == ShowRow(rows[r]))
    && (y < |rows| ==> RowPartlyDrawn(before[y], rows[y], clearFroms[y], x, screen[y]))
    && (forall r :: y < r < |rows| ==> RowReady(before[r], rows[r], clearFroms[r], screen[r]))
  }

  lemma StartRow(before: seq<seq<Cell>>, rows: seq<seq<Cell>>, clearFroms: seq<nat>, screen: Screen, y: nat)
    requires |before| == |rows| == |screen| == |clearFroms| && y <= |rows|
    requires forall r :: 0 <= r < y ==> screen[r] == ShowRow(rows[r])
    requires forall r :: y <= r < |rows| ==> RowReady(before[r], rows[r], clearFroms[r], screen[r])
    ensures DrawnUpTo(before, rows, clearFroms, screen, y, 0)
  {
    assert y < |rows| ==> RowReady(before[y], rows[y], clearFroms[y], screen[y]);
  }

  lemma DrawStep(before: seq<seq<Cell>>, rows: seq<seq<Cell>>, clearFroms: seq<nat>, screen: Screen,
                 y: nat, x: nat, screen': Screen, prefillWidth: nat)
    requires DrawnUpTo(before, rows, clearFroms, screen, y, x)
    requires y < |rows| && x < |rows[y]| == |before[y]|
    requires prefillWidth == 0 || prefillWidth == CellWidth(rows[y][x]) >= 2
    requires screen' == if PutDue(before[y], rows[y], clearFroms[y], x)
                        then Draw(screen, Put(x, y, rows[y][x], prefillWidth)) else screen
    ensures x + 1 < |rows[y]| ==> DrawnUpTo(before, rows, clearFroms, screen', y, x + 1)
    ensures x + 1 == |rows[y]| ==>
      && DrawnUpTo(before, rows, clearFroms, screen', y + 1, 0)
      && !IsWide(before[y], x) && !IsWide(rows[y], x)
  {
    hide PutDue;
    hide Draw;
    hide RowReady;
    hide RowPartlyDrawn;
    hide ShowRow;
    hide CellWidth;
    RowStep(before[y], rows[y], clearFroms[y], screen, y, x, screen', prefillWidth);
    if x + 1 == |rows[y]| {
      WholeRowDrawn(before[y], rows[y], clearFroms[y], screen'[y]);
      StartRow(before, rows, clearFroms, screen', y + 1);
    }
  }

  /** What `invalidated` and `to_skip` say when the loop is at `column`. */
  ghost predicate Carries(before: seq<Cell>, row: seq<Cell>, column: nat, invalidated: nat, toSkip: nat) {
    && toSkip == SkipAt(row, column)
    && invalidated == if IsWide(before, column - 1) || IsWide(row, column - 1) then 1 else 0
  }

  lemma CarryStep(before: seq<Cell>, row: seq<Cell>, column: nat, invalidated: nat, toSkip: nat)
    requires WellFormedRow(before) && WellFormedRow(row) && column < |row| == |before|
    requires Carries(before, row, column, invalidated, toSkip)
    ensures Carries(before, row, column + 1,
                    Minus(Max(Max(CellWidth(row[column]), CellWidth(before[column])), invalidated), 1),
                    Minus(CellWidth(row[column]), 1))
  {
  }

  ghost function LastContentColumn(clearFrom: nat): Option<nat> {
    if clearFrom > 0 then Some(clearFrom - 1) else None
  }

  /** The guard around the push of a put. */
  ghost predicate EmitsPut(
    before: seq<Cell>, row: seq<Cell>, column: nat, clearFrom: nat, invalidated: nat, toSkip: nat)
    requires column < |row| == |before|
  {
    && !IsSkipped(row[column])
    && (IsAlwaysUpdated(row[column]) || row[column] != before[column] || invalidated > 0)
    && toSkip == 0
    && LastContentColumn(clearFrom).Some? && column <= LastContentColumn(clearFrom).value
  }

  lemma PutDueWhen(before: seq<Cell>, row: seq<Cell>, clearFrom: nat, column: nat, invalidated: nat, toSkip: nat)
    requires column < |row| == |before|
    requires row[column].diffOption != Skip
    requires Carries(before, row, column, invalidated, toSkip)
    ensures PutDue(before, row, clearFrom, column) <==>
            EmitsPut(before, row, column, clearFrom, invalidated, toSkip)
  {
  }

  lemma DuePutIsJustified(before: seq<Cell>, row: seq<Cell>, clearFrom: nat, column: nat, y: nat, prefillWidth: nat)
    requires column < |row| == |before|
    requires Tiled(row, clearFrom) && IsContentEnd(row, TrailingBg(row), clearFrom)
    requires PutDue(before, row, clearFrom, column)
    ensures JustifiedInRow(before, row, Put(column, y, row[column], prefillWidth))
  {
    ContentEndMeaning(row, clearFrom, column);
  }

  /** The commands emitted so far: clears of rows above `clearRow`, then puts before `(row, column)`. */
  ghost predicate Emitted(
    before: seq<seq<Cell>>, rows: seq<seq<Cell>>, commands: seq<DrawCommand>, clears: nat, row: nat, column: nat)
    requires |before| == |rows|
  {
    && ClearsThenPuts(commands, clears)
    && InReadingOrder(commands)
    && (forall i :: 0 <= i < |commands| ==> JustifiedCommand(before, rows, commands[i]))
    && (forall i :: clears <= i < |commands| ==>
          commands[i].y < row || (commands[i].y == row && commands[i].x < column))
  }

  ghost predicate JustifiedCommand(before: seq<seq<Cell>>, rows: seq<seq<Cell>>, command: DrawCommand)
    requires |before| == |rows|
  {
    && command.y < |rows|
    && |before[command.y]| == |rows[command.y]|
    && JustifiedInRow(before[command.y], rows[command.y], command)
  }

  lemma OrderSnoc(commands: seq<DrawCommand>, command: DrawCommand)
    requires InReadingOrder(commands)
    requires forall i :: 0 <= i < |commands| && commands[i].ClearToEnd? == command.ClearToEnd? ==>
      commands[i].y < command.y || (commands[i].y == command.y && commands[i].x < command.x)
    ensures InReadingOrder(commands + [command])
  {
    forall i, j | 0 <= i < j < |commands| + 1
      ensures DrawnBefore(commands + [command], i, j)
    {
      assert j < |commands| ==> DrawnBefore(commands, i, j);
    }
  }

  lemma EmitPut(before: seq<seq<Cell>>, rows: seq<seq<Cell>>, commands: seq<DrawCommand>, clears: nat,
                row: nat, column: nat, put: DrawCommand)
    requires |before| == |rows| && Emitted(before, rows, commands, clears, row, column)
    requires put.Put? && put.y == row && put.x == column && JustifiedCommand(before, rows, put)
    ensures Emitted(before, rows, commands + [put], clears, row, column + 1)
  {
    OrderSnoc(commands, put);
  }

  /** The clears of the rows above `y`. */
  ghost predicate ClearsEmitted(before: seq<seq<Cell>>, rows: seq<seq<Cell>>, commands: seq<DrawCommand>, y: nat)
    requires |before| == |rows|
  {
    && InReadingOrder(commands)
    && forall i :: 0 <= i < |commands| ==>
         commands[i].ClearToEnd? && commands[i].y < y && JustifiedCommand(before, rows, commands[i])
  }

  lemma EmitClear(before: seq<seq<Cell>>, rows: seq<seq<Cell>>, commands: seq<DrawCommand>, clear: DrawCommand)
    requires |before| == |rows| && ClearsEmitted(before, rows, commands, clear.y)
    requires clear.ClearToEnd? && JustifiedCommand(before, rows, clear)
    ensures ClearsEmitted(before, rows, commands + [clear], clear.y + 1)
  {
    OrderSnoc(commands, clear);
  }

  lemma EmitNothing(before: seq<seq<Cell>>, rows: seq<seq<Cell>>, commands: seq<DrawCommand>, clears: nat,
                    row: nat, column: nat)
    requires |before| == |rows| && Emitted(before, rows, commands, clears, row, column)
    ensures Emitted(before, rows, commands, clears, row, column + 1)
    ensures Emitted(before, rows, commands, clears, row + 1, 0)
  {
  }

  /** Whether row `y` gets a clear. */
  ghost predicate ClearDue(before: seq<Cell>, row: seq<Cell>, clearFrom: nat) {
    clearFrom < |row| && TailShows(before, clearFrom, TrailingBg(row))
  }

  /** The code of one iteration of the clear loop. */
  method ClearForRow(commands: seq<DrawCommand>, previousRow: seq<Cell>, currentRow: seq<Cell>, y: nat)
    returns (extended: seq<DrawCommand>, clearFrom: nat)
    requires WellFormedRow(previousRow) && WellFormedRow(currentRow) && |previousRow| == |currentRow|
    ensures IsContentEnd(currentRow, TrailingBg(currentRow), clearFrom)
    ensures extended == if ClearDue(previousRow, currentRow, clearFrom)
                        then commands + [ClearToEnd(clearFrom, y, TrailingBg(currentRow))] else commands
  {
    extended := commands;
    var rowTrailingBg := if |currentRow| == 0 then Reset else currentRow[|currentRow| - 1].bg;
    clearFrom := RowClearFrom(currentRow, rowTrailingBg);
    if clearFrom < |currentRow| {
      var needed := PreviousTailNeedsClear(previousRow, clearFrom, rowTrailingBg);
      if needed {
        extended := commands + [ClearToEnd(clearFrom, y, rowTrailingBg)];
      }
    }
  }

  lemma ClearLoopStep(before: seq<seq<Cell>>, rows: seq<seq<Cell>>, clearFroms: seq<nat>, shown: Screen,
                      commands: seq<DrawCommand>, y: nat, clearFrom: nat, commands': seq<DrawCommand>)
    requires |before| == |rows| && y < |rows|
    requires ClearedUpTo(before, rows, clearFroms, Run(shown, commands), y)
    requires ClearsEmitted(before, rows, commands, y)
    requires WellFormedRow(before[y]) && WellFormedRow(rows[y]) && |before[y]| == |rows[y]|
    requires IsContentEnd(rows[y], TrailingBg(rows[y]), clearFrom)
    requires commands' == if ClearDue(before[y], rows[y], clearFrom)
                          then commands + [ClearToEnd(clearFrom, y, TrailingBg(rows[y]))] else commands
    ensures ClearedUpTo(before, rows, clearFroms + [clearFrom], Run(shown, commands'), y + 1)
    ensures ClearsEmitted(before, rows, commands', y + 1)
  {
    var cleared := ClearDue(before[y], rows[y], clearFrom);
    if cleared {
      RunSnoc(shown, commands, ClearToEnd(clearFrom, y, TrailingBg(rows[y])));
      EmitClear(before, rows, commands, ClearToEnd(clearFrom, y, TrailingBg(rows[y])));
    }
    ClearStep(before, rows, clearFroms, Run(shown, commands), y, clearFrom, Run(shown, commands'), cleared);
  }

  lemma NothingCleared(before: seq<seq<Cell>>, rows: seq<seq<Cell>>)
    requires |before| == |rows|
    ensures ClearedUpTo(before, rows, [], Run(ShowRows(before), []), 0) && ClearsEmitted(before, rows, [], 0)
  {
  }

  lemma ClearsAreEmitted(before: seq<seq<Cell>>, rows: seq<seq<Cell>>, commands: seq<DrawCommand>, y: nat)
    requires |before| == |rows| && ClearsEmitted(before, rows, commands, y)
    ensures Emitted(before, rows, commands, |commands|, 0, 0)
  {
  }

  method EmitClears(previous: Buffer, current: Buffer)
    returns (commands: seq<DrawCommand>, lastContentColumns: seq<Option<nat>>, ghost clearFroms: seq<nat>)
    requires SameShape(previous, current)
    ensures ClearedUpTo(Rows(previous), Rows(current), clearFroms, Run(Show(previous), commands), current.height)
    ensures |lastContentColumns| == current.height
    ensures forall r :: 0 <= r < current.height ==> lastContentColumns[r] == LastContentColumn(clearFroms[r])
    ensures Emitted(Rows(previous), Rows(current), commands, |commands|, 0, 0)
  {
    hide ClearedUpTo;
    hide ClearsEmitted;
    hide Emitted;
    hide Run;
    hide WellFormedRow;
    hide IsContentEnd;
    commands := [];
    lastContentColumns := seq(current.height, _ => None);
    clearFroms := [];
    ghost var before, rows := Rows(previous), Rows(current);
    NothingCleared(before, rows);

    var y := 0;
    while y < current.height
      invariant 0 <= y <= current.height == |lastContentColumns| && |clearFroms| == y
      invariant ClearedUpTo(before, rows, clearFroms, Run(Show(previous), commands), y)
      invariant forall r :: 0 <= r < y ==> lastContentColumns[r] == LastContentColumn(clearFroms[r])
      invariant forall r :: y <= r < current.height ==> lastContentColumns[r] == None
      invariant ClearsEmitted(before, rows, commands, y)
    {
      var currentRow := RowOf(current, y);
      var previousRow := RowOf(previous, y);
      assert currentRow == rows[y] && previousRow == before[y];
      ghost var commands0 := commands;
      var clearFrom;
      commands, clearFrom := ClearForRow(commands, previousRow, currentRow, y);
      if clearFrom > 0 {
        lastContentColumns := lastContentColumns[y := Some(Minus(clearFrom, 1))];
      }
      ClearLoopStep(before, rows, clearFroms, Show(previous), commands0, y, clearFrom, commands);
      clearFroms := clearFroms + [clearFrom];
      y := y + 1;
    }
    ClearsAreEmitted(before, rows, commands, y);
  }

  /** No put that is needed before `(row, column)` has been left out. */
  ghost predicate PutsSoFar(
    before: seq<seq<Cell>>, rows: seq<seq<Cell>>, commands: seq<DrawCommand>, row: nat, column: nat)
    requires |before| == |rows|
  {
    forall y: nat, x: nat :: y < |rows| && (y < row || (y == row && x < column)) && NeedsPut(before[y], rows[y], x) ==>
      HasPut(commands, x, y)
  }

  lemma MorePutsSoFar(before: seq<seq<Cell>>, rows: seq<seq<Cell>>, commands: seq<DrawCommand>, row: nat, column: nat,
                      commands': seq<DrawCommand>)
    requires |before| == |rows| && row < |rows| && PutsSoFar(before, rows, commands, row, column)
    requires commands <= commands' && (NeedsPut(before[row], rows[row], column) ==> HasPut(commands', column, row))
    ensures PutsSoFar(before, rows, commands', row, column + 1)
    ensures column + 1 == |rows[row]| ==> PutsSoFar(before, rows, commands', row + 1, 0)
  {
    forall y: nat, x: nat | HasPut(commands, x, y)
      ensures HasPut(commands', x, y)
    {
      var i :| 0 <= i < |commands| && commands[i].Put? && commands[i].x == x && commands[i].y == y;
      assert commands'[i] == commands[i];
    }
  }

  lemma NeededPutIsDue(before: seq<Cell>, row: seq<Cell>, clearFrom: nat, x: nat)
    requires x < |row| == |before| && Tiled(row, clearFrom) && IsContentEnd(row, TrailingBg(row), clearFrom)
    ensures NeedsPut(before, row, x) <==> PutDue(before, row, clearFrom, x)
  {
    if IsLeading(row, x) { ContentEndMeaning(row, clearFrom, x); }
  }

  ghost predicate PutLoop(
    before: seq<seq<Cell>>, rows: seq<seq<Cell>>, clearFroms: seq<nat>, shown: Screen,
    commands: seq<DrawCommand>, clears: nat, row: nat, column: nat, invalidated: nat, toSkip: nat)
    requires |before| == |rows|
  {
    && PutsSoFar(before, rows, commands, row, column)
    && DrawnUpTo(before, rows, clearFroms, Run(shown, commands), row, column)
    && Emitted(before, rows, commands, clears, row, column)
    && (row < |rows| ==> Carries(before[row], rows[row], column, invalidated, toSkip))
  }

  lemma PutLoopStep(
    before: seq<seq<Cell>>, rows: seq<seq<Cell>>, clearFroms: seq<nat>, shown: Screen,
    commands: seq<DrawCommand>, clears: nat, row: nat, column: nat, invalidated: nat, toSkip: nat,
    commands': seq<DrawCommand>, prefillWidth: nat, invalidated': nat, toSkip': nat, row': nat, column': nat)
    requires |before| == |rows| && row < |rows| && column < |rows[row]| == |before[row]|
    requires PutLoop(before, rows, clearFroms, shown, commands, clears, row, column, invalidated, toSkip)
    requires prefillWidth == 0 || prefillWidth == CellWidth(rows[row][column]) >= 2
    requires commands' ==
      if EmitsPut(before[row], rows[row], column, clearFroms[row], invalidated, toSkip)
      then commands + [Put(column, row, rows[row][column], prefillWidth)] else commands
    requires toSkip' == Minus(CellWidth(rows[row][column]), 1)
    requires invalidated' ==
      Minus(Max(Max(CellWidth(rows[row][column]), CellWidth(before[row][column])), invalidated), 1)
    requires (row', column') == if column + 1 < |rows[row]| then (row, column + 1) else (row + 1, 0)
    ensures PutLoop(before, rows, clearFroms, shown, commands', clears, row', column', invalidated', toSkip')
  {
    hide Run;
    hide Draw;
    hide Emitted;
    hide WellFormedRow;
    hide IsContentEnd;
    hide EmitsPut;
    hide CellWidth;
    hide RowReady;
    hide PutDue;
    hide PutsSoFar;
    hide NeedsPut;
    var put := Put(column, row, rows[row][column], prefillWidth);
    PutLoopRow(before, rows, clearFroms, shown, commands, clears, row, column, invalidated, toSkip);
    CarryStep(before[row], rows[row], column, invalidated, toSkip);
    PutDueWhen(before[row], rows[row], clearFroms[row], column, invalidated, toSkip);
    NeededPutIsDue(before[row], rows[row], clearFroms[row], column);
    if EmitsPut(before[row], rows[row], column, clearFroms[row], invalidated, toSkip) {
      assert commands'[|commands|] == put;
    }
    MorePutsSoFar(before, rows, commands, row, column, commands');
    if EmitsPut(before[row], rows[row], column, clearFroms[row], invalidated, toSkip) {
      RunSnoc(shown, commands, put);
      DuePutIsJustified(before[row], rows[row], clearFroms[row], column, row, prefillWidth);
      EmitPut(before, rows, commands, clears, row, column, put);
      EmitNothing(before, rows, commands', clears, row, column + 1);
    } else {
      EmitNothing(before, rows, commands, clears, row, column);
    }
    DrawStep(before, rows, clearFroms, Run(shown, commands), row, column, Run(shown, commands'), prefillWidth);
    if column + 1 == |rows[row]| && row' < |rows| {
      CarryIntoRow(before[row], rows[row], before[row'], rows[row'], invalidated', toSkip');
    }
  }

  /** Nothing is carried over from one row to the next. */
  lemma CarryIntoRow(before: seq<Cell>, row: seq<Cell>, nextBefore: seq<Cell>, nextRow: seq<Cell>,
                     invalidated: nat, toSkip: nat)
    requires |before| == |row| && !IsWide(before, |row| - 1) && !IsWide(row, |row| - 1)
    requires Carries(before, row, |row|, invalidated, toSkip)
    ensures Carries(nextBefore, nextRow, 0, invalidated, toSkip)
  {
  }

  /** What the row the loop is in is known for. */
  lemma PutLoopRow(
    before: seq<seq<Cell>>, rows: seq<seq<Cell>>, clearFroms: seq<nat>, shown: Screen,
    commands: seq<DrawCommand>, clears: nat, row: nat, column: nat, invalidated: nat, toSkip: nat)
    requires |before| == |rows| && row < |rows| && column < |rows[row]| == |before[row]|
    requires PutLoop(before, rows, clearFroms, shown, commands, clears, row, column, invalidated, toSkip)
    ensures |clearFroms| == |rows| && WellFormedRow(before[row]) && WellFormedRow(rows[row])
    ensures rows[row][column].diffOption != Skip && Tiled(rows[row], clearFroms[row])
    ensures IsContentEnd(rows[row], TrailingBg(rows[row]), clearFroms[row])
  {
    WellFormedRowIsTiled(rows[row], TrailingBg(rows[row]), clearFroms[row]);
  }

  lemma RowsWithoutColumnsAreDrawn(
    before: seq<seq<Cell>>, rows: seq<seq<Cell>>, clearFroms: seq<nat>, screen: Screen)
    requires ClearedUpTo(before, rows, clearFroms, screen, |rows|)
    requires forall r :: 0 <= r < |rows| ==> |rows[r]| == 0
    ensures DrawnUpTo(before, rows, clearFroms, screen, |rows|, 0)
  {
    forall r | 0 <= r < |rows|
      ensures screen[r] == ShowRow(rows[r])
    {
      assert RowReady(before[r], rows[r], clearFroms[r], screen[r]);
    }
  }

  /** Where row `y` starts in the flat buffer, and the cell loop finishes. */
  ghost function Offset(y: nat, width: nat): nat {
    if y == 0 then 0 else Offset(y - 1, width) + width
  }

  lemma {:induction false} NoColumnsNoOffset(y: nat)
    ensures Offset(y, 0) == 0
  {
    if y > 0 {
      NoColumnsNoOffset(y - 1);
    }
  }

  lemma {:induction false} OffsetIsProduct(y: nat, width: nat)
    ensures Offset(y, width) == y * width
  {
    if y > 0 {
      OffsetIsProduct(y - 1, width);
      assert y * width == (y - 1) * width + width;
    }
  }

  ghost predicate Slice(buffer: Buffer, row: seq<Cell>, start: nat) {
    && |row| == buffer.width
    && start + |row| <= |buffer.content|
    && forall x :: 0 <= x < |row| ==> row[x] == buffer.content[start + x]
  }

  /** `rows` are the rows of the flat buffer. */
  ghost predicate Slices(buffer: Buffer, rows: seq<seq<Cell>>) {
    && |rows| == buffer.height
    && |buffer.content| == Offset(buffer.height, buffer.width)
    && forall y :: 0 <= y < |rows| ==> Slice(buffer, rows[y], Offset(y, buffer.width))
  }

  lemma RowsAreSlices(buffer: Buffer)
    requires |buffer.content| == buffer.width * buffer.height
    ensures Slices(buffer, Rows(buffer))
  {
    OffsetIsProduct(buffer.height, buffer.width);
    forall y | 0 <= y < buffer.height
      ensures Slice(buffer, RowOf(buffer, y), Offset(y, buffer.width))
    {
      OffsetIsProduct(y, buffer.width);
      RowBounds(buffer.width, buffer.height, y);
    }
  }

  /** The code of one iteration of the put loop. */
  method PutForCell(commands: seq<DrawCommand>, previous: Buffer, current: Buffer, index: nat,
                    lastContentColumns: seq<Option<nat>>,
                    invalidated: nat, toSkip: nat, ghost before: seq<seq<Cell>>, ghost rows: seq<seq<Cell>>,
                    ghost clearFrom: nat, ghost row: nat, ghost column: nat)
    returns (extended: seq<DrawCommand>, invalidated': nat, toSkip': nat, ghost prefill: nat)
    requires previous.width == current.width && Slices(previous, before) && Slices(current, rows)
    requires row < |rows| == |before| == |lastContentColumns| && column < current.width
    requires index == Offset(row, current.width) + column
    requires lastContentColumns[row] == LastContentColumn(clearFrom)
    ensures |rows[row]| == |before[row]| == current.width
    ensures prefill == 0 || prefill == CellWidth(rows[row][column]) >= 2
    ensures toSkip' == Minus(CellWidth(rows[row][column]), 1)
    ensures invalidated' ==
      Minus(Max(Max(CellWidth(rows[row][column]), CellWidth(before[row][column])), invalidated), 1)
    ensures extended == if EmitsPut(before[row], rows[row], column, clearFrom, invalidated, toSkip)
                        then commands + [Put(column, row, rows[row][column], prefill)] else commands
  {
    OffsetIsProduct(row, current.width);
    PositionInRow(index, current.width, row, column);
    assert Slice(current, rows[row], index - column) && Slice(previous, before[row], index - column);
    extended, prefill := commands, 0;
    var currentCell, previousCell := current.content[index], previous.content[index];
    var currentWidth, previousWidth := CellWidth(currentCell), CellWidth(previousCell);
    if && !IsSkipped(currentCell)
       && (IsAlwaysUpdated(currentCell) || currentCell != previousCell || invalidated > 0)
       && toSkip == 0
    {
      var x, y := index % current.width, index / current.width;
      var lastContentColumn := lastContentColumns[index / current.width];
      if lastContentColumn.Some? && x <= lastContentColumn.value {
        var prefillWidth := WidePrefillWidth(
          previous.content, current.content, index, current.width, currentWidth);
        prefill := prefillWidth;
        extended := commands + [Put(x, y, currentCell, prefillWidth)];
      }
    }
    toSkip' := Minus(currentWidth, 1);
    var affectedWidth := Max(currentWidth, previousWidth);
    invalidated' := Minus(Max(affectedWidth, invalidated), 1);
  }

  /** Where the cell loop starts; without columns there is no cell in any row. */
  ghost function FirstRow(current: Buffer, rows: seq<seq<Cell>>): nat {
    if current.width == 0 then |rows| else 0
  }

  lemma PutLoopStart(before: seq<seq<Cell>>, rows: seq<seq<Cell>>, clearFroms: seq<nat>, shown: Screen,
                     cleared: seq<DrawCommand>, current: Buffer)
    requires ClearedUpTo(before, rows, clearFroms, Run(shown, cleared), |rows|)
    requires Emitted(before, rows, cleared, |cleared|, 0, 0)
    requires Slices(current, rows)
    ensures PutLoop(before, rows, clearFroms, shown, cleared, |cleared|, FirstRow(current, rows), 0, 0, 0)
  {
    StartRow(before, rows, clearFroms, Run(shown, cleared), 0);
    if current.width == 0 {
      assert forall y :: 0 <= y < |rows| ==> Slice(current, rows[y], Offset(y, current.width));
      RowsWithoutColumnsAreDrawn(before, rows, clearFroms, Run(shown, cleared));
      assert forall y :: 0 <= y < |rows| ==> |rows[y]| == 0;
    }
  }

  lemma PutLoopEnd(before: seq<seq<Cell>>, rows: seq<seq<Cell>>, clearFroms: seq<nat>, shown: Screen,
                   commands: seq<DrawCommand>, clears: nat, row: nat, column: nat, invalidated: nat, toSkip: nat)
    requires |before| == |rows| == row && column == 0
    requires PutLoop(before, rows, clearFroms, shown, commands, clears, row, column, invalidated, toSkip)
    ensures Run(shown, commands) == ShowRows(rows)
    ensures Emitted(before, rows, commands, clears, |rows|, 0) && PutsSoFar(before, rows, commands, |rows|, 0)
  {
  }

  lemma SlicesLength(buffer: Buffer, rows: seq<seq<Cell>>)
    requires Slices(buffer, rows)
    ensures |rows| == buffer.height && |buffer.content| == Offset(|rows|, buffer.width)
  {
  }

  lemma SliceAt(buffer: Buffer, rows: seq<seq<Cell>>, y: nat, x: nat)
    requires Slices(buffer, rows) && y < |rows| && x < buffer.width
    ensures Offset(y, buffer.width) + x < |buffer.content|
    ensures |rows[y]| == buffer.width && buffer.content[Offset(y, buffer.width) + x] == rows[y][x]
  {
    assert Slice(buffer, rows[y], Offset(y, buffer.width));
  }

  ghost function NextRow(width: nat, row: nat, column: nat): nat {
    if column + 1 < width then row else row + 1
  }

  ghost function NextColumn(width: nat, row: nat, column: nat): nat {
    if column + 1 < width then column + 1 else 0
  }

  lemma NextOffset(width: nat, row: nat, column: nat)
    requires column < width
    ensures Offset(NextRow(width, row, column), width) + NextColumn(width, row, column)
            == Offset(row, width) + column + 1
  {
    assert Offset(row + 1, width) == Offset(row, width) + width;
  }

  /** One iteration of the put loop, and what it keeps. */
  method PutIteration(commands: seq<DrawCommand>, previous: Buffer, current: Buffer, index: nat,
                      lastContentColumns: seq<Option<nat>>, invalidated: nat, toSkip: nat,
                      ghost before: seq<seq<Cell>>, ghost rows: seq<seq<Cell>>, ghost clearFroms: seq<nat>,
                      ghost shown: Screen, ghost clears: nat, ghost row: nat, ghost column: nat)
    returns (commands': seq<DrawCommand>, invalidated': nat, toSkip': nat)
    requires previous.width == current.width && Slices(previous, before) && Slices(current, rows)
    requires row < |rows| == |before| == |lastContentColumns| == |clearFroms| && column < current.width
    requires index == Offset(row, current.width) + column
    requires lastContentColumns[row] == LastContentColumn(clearFroms[row])
    requires PutLoop(before, rows, clearFroms, shown, commands, clears, row, column, invalidated, toSkip)
    ensures PutLoop(before, rows, clearFroms, shown, commands', clears, NextRow(current.width, row, column),
                    NextColumn(current.width, row, column), invalidated', toSkip')
  {
    ghost var prefill;
    commands', invalidated', toSkip', prefill := PutForCell(
      commands, previous, current, index, lastContentColumns, invalidated, toSkip,
      before, rows, clearFroms[row], row, column);
    PutLoopStep(before, rows, clearFroms, shown, commands, clears, row, column, invalidated, toSkip,
                commands', prefill, invalidated', toSkip',
                NextRow(current.width, row, column), NextColumn(current.width, row, column));
  }

  method EmitPuts(previous: Buffer, current: Buffer, cleared: seq<DrawCommand>,
                  lastContentColumns: seq<Option<nat>>, ghost clearFroms: seq<nat>,
                  ghost before: seq<seq<Cell>>, ghost rows: seq<seq<Cell>>, ghost shown: Screen)
    returns (commands: seq<DrawCommand>)
    requires previous.width == current.width && Slices(previous, before) && Slices(current, rows)
    requires |before| == |rows| == |lastContentColumns| == |clearFroms|
    requires forall r :: 0 <= r < |rows| ==> lastContentColumns[r] == LastContentColumn(clearFroms[r])
    requires PutLoop(before, rows, clearFroms, shown, cleared, |cleared|, FirstRow(current, rows), 0, 0, 0)
    ensures Run(shown, commands) == ShowRows(rows)
    ensures Emitted(before, rows, commands, |cleared|, |rows|, 0) && PutsSoFar(before, rows, commands, |rows|, 0)
  {
    hide PutLoop;
    hide PutsSoFar;
    hide Run;
    hide ShowRows;
    hide Emitted;
    hide Slices;
    hide LastContentColumn;
    SlicesLength(previous, before);
    SlicesLength(current, rows);
    commands := cleared;
    ghost var row: nat, column: nat := FirstRow(current, rows), 0;
    NoColumnsNoOffset(row);

    var invalidated: nat := 0;
    var toSkip: nat := 0;
    var index: nat := 0;
    while index < |current.content|
      invariant |current.content| == Offset(|rows|, current.width)
      invariant index == Offset(row, current.width) + column
      invariant if row < |rows| then column < current.width else row == |rows| && column == 0
      invariant PutLoop(before, rows, clearFroms, shown, commands, |cleared|, row, column, invalidated, toSkip)
    {
      commands, invalidated, toSkip := PutIteration(
        commands, previous, current, index, lastContentColumns, invalidated, toSkip,
        before, rows, clearFroms, shown, |cleared|, row, column);
      index := index + 1;
      NextOffset(current.width, row, column);
      row, column := NextRow(current.width, row, column), NextColumn(current.width, row, column);
    }
    if row < |rows| {
      SliceAt(current, rows, row, column);
    }
    PutLoopEnd(before, rows, clearFroms, shown, commands, |cleared|, row, column, invalidated, toSkip);
  }

  method DiffTerminalBuffers(previous: Buffer, current: Buffer) returns (commands: seq<DrawCommand>)
    requires SameShape(previous, current)
    ensures Run(Show(previous), commands) == Show(current)
    ensures forall i :: 0 <= i < |commands| ==> Justified(previous, current, commands[i])
    ensures InReadingOrder(commands)
    ensures exists clears :: ClearsThenPuts(commands, clears)
    ensures forall y: nat, x: nat :: y < current.height && NeedsPut(RowOf(previous, y), RowOf(current, y), x) ==>
      HasPut(commands, x, y)
  {
    RowsAreSlices(previous);
    RowsAreSlices(current);
    var cleared, lastContentColumns, clearFroms := EmitClears(previous, current);
    PutLoopStart(Rows(previous), Rows(current), clearFroms, Show(previous), cleared, current);
    commands := EmitPuts(previous, current, cleared, lastContentColumns, clearFroms,
                         Rows(previous), Rows(current), Show(previous));
    DiffIsJustifiedAndComplete(previous, current, commands);
  }

  lemma DiffIsJustifiedAndComplete(previous: Buffer, current: Buffer, commands: seq<DrawCommand>)
    requires SameShape(previous, current)
    requires forall i :: 0 <= i < |commands| ==> JustifiedCommand(Rows(previous), Rows(current), commands[i])
    requires PutsSoFar(Rows(previous), Rows(current), commands, current.height, 0)
    ensures forall i :: 0 <= i < |commands| ==> Justified(previous, current, commands[i])
    ensures forall y: nat, x: nat :: y < current.height && NeedsPut(RowOf(previous, y), RowOf(current, y), x) ==>
      HasPut(commands, x, y)
  {
    hide JustifiedInRow;
    hide NeedsPut;
    hide HasPut;
    forall i | 0 <= i < |commands|
      ensures Justified(previous, current, commands[i])
    {
      assert JustifiedCommand(Rows(previous), Rows(current), commands[i]);
    }
    forall y: nat, x: nat | y < current.height && NeedsPut(RowOf(previous, y), RowOf(current, y), x)
      ensures HasPut(commands, x, y)
    {
      assert NeedsPut(Rows(previous)[y], Rows(current)[y], x);
    }
  }
}
