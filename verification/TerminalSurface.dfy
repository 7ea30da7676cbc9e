/** Flushing draw commands to a terminal that writes at its cursor: moves are left out when the
    cursor is believed to be in place already. */
module TerminalSurface {
  import opened Numbers
  import opened TerminalScreen
  import opened TerminalGrid
  import opened TerminalStyle
  import opened TerminalBlinks
  import opened Wrappers

  const PREFILL_SPACES_LEN := 32

  datatype Output =
    | MoveTo(x: nat, y: nat)
    | SetStyle(change: Sgr)
    | Spaces(count: nat)
    | Glyph(text: string, width: nat)
    | EraseUntilNewLine

  /** A terminal prints at its cursor, in the style of its pen. */
  datatype Terminal = Terminal(screen: Screen, x: nat, y: nat, pen: Style)

  /** What is printed outside the rows is ignored; erasing uses the background of the pen. */
  function Write(terminal: Terminal, output: Output): (r: Terminal) {
    var Terminal(screen, x, y, pen) := terminal;
    match output
    case MoveTo(x', y') => Terminal(screen, x', y', pen)
    case SetStyle(change) => Terminal(screen, x, y, Apply(pen, change))
    case Spaces(count) =>
      var line := if y < |screen| then PrintSpaces(screen[y], x, count, Styled(" ", pen)) else [];
      Terminal(if y < |screen| then screen[y := line] else screen, x + count, y, pen)
    case Glyph(text, width) =>
      var line := if y < |screen| then Print(screen[y], x, width, Styled(text, pen)) else [];
      Terminal(if y < |screen| then screen[y := line] else screen, x + width, y, pen)
    case EraseUntilNewLine =>
      Terminal(if y < |screen| then screen[y := Erase(screen[y], x, pen.bg)] else screen, x, y, pen)
  }

  function WriteAll(terminal: Terminal, outputs: seq<Output>): (r: Terminal) {
    if outputs == [] then terminal
    else Write(WriteAll(terminal, outputs[..|outputs| - 1]), outputs[|outputs| - 1])
  }

  lemma WriteAllSnoc(terminal: Terminal, outputs: seq<Output>, output: Output)
    ensures WriteAll(terminal, outputs + [output]) == Write(WriteAll(terminal, outputs), output)
  {
    assert (outputs + [output])[..|outputs|] == outputs;
  }

  lemma {:induction false} SpacesCompose(line: Line, x: nat, a: nat, b: nat, look: Look)
    ensures PrintSpaces(PrintSpaces(line, x, a, look), x + a, b, look) == PrintSpaces(line, x, a + b, look)
    decreases a
  {
    if a > 0 {
      SpacesCompose(Print(line, x, 1, look), x + 1, a - 1, b, look);
    }
  }

  /** A command one column right of its predecessor finds the cursor there only if the predecessor
      printed exactly one column. */
  ghost predicate CursorFollows(commands: seq<DrawCommand>, i: nat)
    requires i + 1 < |commands|
  {
    commands[i + 1].y == commands[i].y && commands[i + 1].x == commands[i].x + 1 ==>
      commands[i].Put? && CellWidth(commands[i].cell) == 1
  }

  ghost predicate NeverMisplaced(commands: seq<DrawCommand>) {
    forall i :: 0 <= i < |commands| - 1 ==> CursorFollows(commands, i)
  }

  function SetStyles(changes: seq<Sgr>): seq<Output> {
    seq(|changes|, i requires 0 <= i < |changes| => SetStyle(changes[i]))
  }

  /** Style sequences change the pen and nothing else. */
  lemma {:induction false} StylesWritten(terminal: Terminal, outputs: seq<Output>, changes: seq<Sgr>)
    ensures var before := WriteAll(terminal, outputs);
      WriteAll(terminal, outputs + SetStyles(changes)) == before.(pen := ApplyAll(before.pen, changes))
    decreases |changes|
  {
    if changes == [] {
      assert outputs + SetStyles(changes) == outputs;
    } else {
      var n := |changes| - 1;
      StylesWritten(terminal, outputs, changes[..n]);
      assert outputs + SetStyles(changes) == (outputs + SetStyles(changes[..n])) + [SetStyle(changes[n])];
      WriteAllSnoc(terminal, outputs + SetStyles(changes[..n]), SetStyle(changes[n]));
    }
  }

  /** One command, with the cursor in place. `lost` are the attributes that the terminal lacks before it. */
  method DrawCommandAtCursor(outputs: seq<Output>, style: TerminalStyleState, command: DrawCommand,
                             ghost terminal: Terminal, ghost lost: set<Attribute>)
    returns (extended: seq<Output>)
    requires WriteAll(terminal, outputs).x == command.x && WriteAll(terminal, outputs).y == command.y
    requires Follows(WriteAll(terminal, outputs).pen, style.Current(), lost)
    modifies style
    ensures var before, after := WriteAll(terminal, outputs), WriteAll(terminal, extended);
      var lost' := LostBy(lost, old(style.modifier), command);
      && after.screen == Draw(before.screen, FadedCommand(command, lost'))
      && style.Current() == StyleBy(command)
      && Follows(after.pen, style.Current(), lost')
      && after.y == command.y
      && (command.Put? ==> after.x == command.x + CellWidth(command.cell))
  {
    hide WriteAll;
    hide PrintSpaces;
    hide Print;
    hide Erase;
    hide ApplyAll;
    ghost var pen := WriteAll(terminal, outputs).pen;
    match command {
      case Put(x, y, cell, prefillWidth) =>
        var changes := style.QueueCell(cell, pen, lost);
        StylesWritten(terminal, outputs, changes);
        extended := outputs + SetStyles(changes);
        if prefillWidth > 1 {
          extended := PrintPrefill(extended, x, y, prefillWidth, terminal);
        }
        WriteAllSnoc(terminal, extended, Glyph(cell.symbol, CellWidth(cell)));
        extended := extended + [Glyph(cell.symbol, CellWidth(cell))];
      case ClearToEnd(_, _, bg) =>
        var changes := style.Reset(pen);
        StylesWritten(terminal, outputs, changes);
        extended := outputs + SetStyles(changes);
        changes := style.QueueBackground(bg);
        StylesWritten(terminal, extended, changes);
        extended := extended + SetStyles(changes);
        WriteAllSnoc(terminal, extended, EraseUntilNewLine);
        extended := extended + [EraseUntilNewLine];
    }
  }

  lemma NothingDrawn(terminal: Terminal)
    requires terminal.pen == DEFAULT_STYLE
    ensures WriteAll(terminal, []) == terminal && Run(terminal.screen, Fade([])) == terminal.screen
    ensures StyleAfter([]) == DEFAULT_STYLE && Follows(terminal.pen, DEFAULT_STYLE, LostAfter([]))
  {
  }

  method DrawTerminalCommands(commands: seq<DrawCommand>, ghost terminal: Terminal)
    returns (outputs: seq<Output>)
    requires NeverMisplaced(commands) && terminal.pen == DEFAULT_STYLE
    ensures WriteAll(terminal, outputs).screen == Run(terminal.screen, Fade(commands))
    ensures WriteAll(terminal, outputs).pen == DEFAULT_STYLE
  {
    hide Draw;
    hide FadedCommand;
    hide WriteAll;
    hide Run;
    hide Fade;
    hide LostAfter;
    hide LostBy;
    hide StyleAfter;
    hide StyleBy;
    hide Follows;
    hide CellWidth;
    outputs := [];
    NothingDrawn(terminal);
    var style := new TerminalStyleState();
    var lastPos: Option<(nat, nat)> := None;
    var i := 0;
    while i < |commands|
      invariant 0 <= i <= |commands|
      invariant WriteAll(terminal, outputs).screen == Run(terminal.screen, Fade(commands[..i]))
      invariant style.Current() == StyleAfter(commands[..i])
      invariant Follows(WriteAll(terminal, outputs).pen, style.Current(), LostAfter(commands[..i]))
      invariant lastPos == if i == 0 then None else Some((commands[i - 1].x, commands[i - 1].y))
      invariant i > 0 && commands[i - 1].Put? ==>
        && WriteAll(terminal, outputs).x == commands[i - 1].x + CellWidth(commands[i - 1].cell)
        && WriteAll(terminal, outputs).y == commands[i - 1].y
    {
      var x, y := commands[i].x, commands[i].y;
      assert i > 0 ==> CursorFollows(commands, i - 1);
      if !(lastPos.Some? && x == lastPos.value.0 + 1 && y == lastPos.value.1) {
        WriteAllSnoc(terminal, outputs, MoveTo(x, y));
        outputs := outputs + [MoveTo(x, y)];
      }
      lastPos := Some((x, y));
      outputs := DrawCommandAtCursor(outputs, style, commands[i], terminal, LostAfter(commands[..i]));
      assert commands[..i + 1] == commands[..i] + [commands[i]];
      FadeSnoc(terminal.screen, commands[..i], commands[i]);
      i := i + 1;
    }
    assert commands[..i] == commands;
    var changes := style.Reset(WriteAll(terminal, outputs).pen);
    StylesWritten(terminal, outputs, changes);
    outputs := outputs + SetStyles(changes);
  }

  /** `after` is `before` with spaces printed in front of its cursor, which has moved behind them. */
  ghost predicate Spaced(before: Terminal, after: Terminal, count: nat) {
    var look := Styled(" ", before.pen);
    && after.x == before.x + count && after.y == before.y && after.pen == before.pen
    && after.screen == if before.y < |before.screen|
                       then before.screen[before.y := PrintSpaces(before.screen[before.y], before.x, count, look)]
                       else before.screen
  }

  lemma NoSpaces(before: Terminal)
    ensures Spaced(before, before, 0)
  {
    if before.y < |before.screen| {
      assert PrintSpaces(before.screen[before.y], before.x, 0, Styled(" ", before.pen)) == before.screen[before.y];
    }
  }

  lemma MoreSpaces(before: Terminal, after: Terminal, count: nat, more: nat)
    requires Spaced(before, after, count)
    ensures Spaced(before, Write(after, Spaces(more)), count + more)
  {
    hide PrintSpaces;
    if before.y < |before.screen| {
      SpacesCompose(before.screen[before.y], before.x, count, more, Styled(" ", before.pen));
    }
  }

  /** Prints the spaces below a wide glyph, chunk by chunk, and moves the cursor back. */
  method PrintPrefill(outputs: seq<Output>, x: nat, y: nat, prefillWidth: nat, ghost terminal: Terminal)
    returns (extended: seq<Output>)
    requires WriteAll(terminal, outputs).x == x && WriteAll(terminal, outputs).y == y
    ensures var before, after := WriteAll(terminal, outputs), WriteAll(terminal, extended);
      var look := Styled(" ", before.pen);
      && after.x == x && after.y == y && after.pen == before.pen
      && after.screen == if y < |before.screen|
                         then before.screen[y := PrintSpaces(before.screen[y], x, prefillWidth, look)]
                         else before.screen
  {
    hide WriteAll;
    hide PrintSpaces;
    extended := outputs;
    ghost var before := WriteAll(terminal, outputs);
    NoSpaces(before);
    var remaining := prefillWidth;
    while remaining > 0
      invariant 0 <= remaining <= prefillWidth
      invariant Spaced(before, WriteAll(terminal, extended), prefillWidth - remaining)
    {
      var chunkWidth := Min(remaining, PREFILL_SPACES_LEN);
      WriteAllSnoc(terminal, extended, Spaces(chunkWidth));
      MoreSpaces(before, WriteAll(terminal, extended), prefillWidth - remaining, chunkWidth);
      extended := extended + [Spaces(chunkWidth)];
      remaining := remaining - chunkWidth;
    }
    WriteAllSnoc(terminal, extended, MoveTo(x, y));
    extended := extended + [MoveTo(x, y)];
  }

  lemma DiffNeverMisplacesCursor(previous: Buffer, current: Buffer, commands: seq<DrawCommand>)
    requires SameShape(previous, current)
    requires forall i :: 0 <= i < |commands| ==> Justified(previous, current, commands[i])
    requires exists clears :: ClearsThenPuts(commands, clears)
    requires InReadingOrder(commands)
    ensures NeverMisplaced(commands)
  {
    forall i | 0 <= i < |commands| - 1
      ensures CursorFollows(commands, i)
    {
      var a, b := commands[i], commands[i + 1];
      assert Justified(previous, current, a) && Justified(previous, current, b);
      assert DrawnBefore(commands, i, i + 1);
      if b.y == a.y && b.x == a.x + 1 {
        NeighboursAreNarrowPuts(RowOf(previous, a.y), RowOf(current, a.y), a, b);
      }
    }
  }

  lemma NeighboursAreNarrowPuts(before: seq<Cell>, row: seq<Cell>, a: DrawCommand, b: DrawCommand)
    requires WellFormedRow(row) && |before| == |row|
    requires JustifiedInRow(before, row, a) && JustifiedInRow(before, row, b)
    requires b.x == a.x + 1 && !(a.Put? && b.ClearToEnd?)
    ensures a.Put? && CellWidth(a.cell) == 1
  {
    if a.Put? {
      assert CellWidth(row[a.x]) == 2 <==> IsWide(row, a.x);
    } else {
      ContentEndMeaning(row, a.x, b.x);
      ContentEndMeaning(row, a.x, a.x);
      if b.ClearToEnd? {
        ContentEndMeaning(row, b.x, a.x);
      }
    }
  }

  /** One frame: diff, then flush. The terminal may have left its cursor anywhere, and its pen is where the
      last flush left it. */
  method FlushScreen(previous: Buffer, current: Buffer, ghost terminal: Terminal)
    returns (outputs: seq<Output>, ghost commands: seq<DrawCommand>)
    requires SameShape(previous, current)
    requires terminal.screen == Show(previous) && terminal.pen == DEFAULT_STYLE
    ensures DiffCommands(previous, current, commands) && Run(Show(previous), commands) == Show(current)
    ensures WriteAll(terminal, outputs).pen == DEFAULT_STYLE
    ensures WriteAll(terminal, outputs).screen == Show(current) <==> KeepsBlinks(commands)
    ensures BlinksOneWay(current) ==> WriteAll(terminal, outputs).screen == Show(current)
  {
    var draws := DiffTerminalBuffers(previous, current);
    commands := draws;
    DiffNeverMisplacesCursor(previous, current, draws);
    outputs := DrawTerminalCommands(draws, terminal);
    FadedFrameIsRight(previous, current, draws);
    if BlinksOneWay(current) { OneWayBlinksAreKept(previous, current, draws); }
  }
}
