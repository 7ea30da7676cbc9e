/** When the terminal prints a frame in the styles of its cells. Attributes are switched on and off by
    difference, and the one sequence that stops blinking stops both kinds: a cell that keeps one of two
    blinks of the cell before it is printed without. */
module TerminalBlinks {
  import opened TerminalScreen
  import opened TerminalGrid
  import opened TerminalStyle

  /** The style that a command writes. */
  function StyleBy(command: DrawCommand): Style {
    match command
    case Put(_, _, cell, _) => StyleOf(cell)
    case ClearToEnd(_, _, bg) => DEFAULT_STYLE.(bg := bg)
  }

  /** The attributes of that style that the terminal lacks afterwards, if it lacked `lost` of the
      attributes `from`. A clear starts from the default style. */
  function LostBy(lost: set<Attribute>, from: set<Attribute>, command: DrawCommand): set<Attribute> {
    match command
    case Put(_, _, cell, _) => LostBlinks(lost, from, cell.modifier)
    case ClearToEnd(_, _, _) => {}
  }

  function StyleAfter(commands: seq<DrawCommand>): Style {
    if commands == [] then DEFAULT_STYLE else StyleBy(commands[|commands| - 1])
  }

  function LostAfter(commands: seq<DrawCommand>): set<Attribute> {
    if commands == [] then {}
    else
      var front := commands[..|commands| - 1];
      LostBy(LostAfter(front), StyleAfter(front).modifier, commands[|commands| - 1])
  }

  lemma {:induction false} LostIsWanted(commands: seq<DrawCommand>)
    ensures LostAfter(commands) <= StyleAfter(commands).modifier * BLINKS
  {
    if commands != [] {
      LostIsWanted(commands[..|commands| - 1]);
    }
  }

  function FadedCommand(command: DrawCommand, lost: set<Attribute>): DrawCommand {
    match command
    case Put(x, y, cell, prefillWidth) => Put(x, y, cell.(modifier := cell.modifier - lost), prefillWidth)
    case ClearToEnd(_, _, _) => command
  }

  /** The commands as the terminal carries them out. */
  function Fade(commands: seq<DrawCommand>): (faded: seq<DrawCommand>)
    ensures |faded| == |commands|
  {
    if commands == [] then []
    else Fade(commands[..|commands| - 1]) + [FadedCommand(commands[|commands| - 1], LostAfter(commands))]
  }

  /** What one more command adds. */
  lemma FadeSnoc(screen: Screen, commands: seq<DrawCommand>, command: DrawCommand)
    ensures var more := commands + [command];
      && LostAfter(more) == LostBy(LostAfter(commands), StyleAfter(commands).modifier, command)
      && StyleAfter(more) == StyleBy(command)
      && Run(screen, Fade(more)) == Draw(Run(screen, Fade(commands)), FadedCommand(command, LostAfter(more)))
  {
    hide Draw;
    hide FadedCommand;
    assert (commands + [command])[..|commands|] == commands;
    RunSnoc(screen, Fade(commands), FadedCommand(command, LostAfter(commands + [command])));
  }

  lemma {:induction false} FadeAt(commands: seq<DrawCommand>, i: nat)
    requires i < |commands|
    ensures Fade(commands)[i] == FadedCommand(commands[i], LostAfter(commands[..i + 1]))
    decreases |commands|
  {
    var n := |commands| - 1;
    if i == n {
      assert commands[..i + 1] == commands;
    } else {
      FadeAt(commands[..n], i);
      assert commands[..n][..i + 1] == commands[..i + 1];
    }
  }

  // ----- when nothing fades -----

  /** One of two blinks goes and the other stays. */
  predicate DropsOneBlink(from: set<Attribute>, to: set<Attribute>) {
    BLINKS <= from && (SlowBlink in to <==> RapidBlink !in to)
  }

  predicate DropsOneBlinkAt(commands: seq<DrawCommand>, i: nat)
    requires i + 1 < |commands|
  {
    && commands[i].Put? && commands[i + 1].Put?
    && DropsOneBlink(commands[i].cell.modifier, commands[i + 1].cell.modifier)
  }

  ghost predicate KeepsBlinks(commands: seq<DrawCommand>) {
    forall i: nat :: i + 1 < |commands| ==> !DropsOneBlinkAt(commands, i)
  }

  lemma NothingLostBefore(from: set<Attribute>, to: set<Attribute>)
    ensures LostBlinks({}, from, to) != {} <==> DropsOneBlink(from, to)
  {
    assert SlowBlink in from * to * BLINKS <==> SlowBlink in from && SlowBlink in to;
    assert RapidBlink in from * to * BLINKS <==> RapidBlink in from && RapidBlink in to;
    if from * to * BLINKS != {} {
      var blink :| blink in from * to * BLINKS;
    }
  }

  lemma KeepsBlinksSnoc(commands: seq<DrawCommand>)
    requires |commands| >= 2
    ensures KeepsBlinks(commands)
            <==> KeepsBlinks(commands[..|commands| - 1]) && !DropsOneBlinkAt(commands, |commands| - 2)
  {
    var front := commands[..|commands| - 1];
    forall i: nat | i + 1 < |front|
      ensures DropsOneBlinkAt(front, i) <==> DropsOneBlinkAt(commands, i)
    {
    }
  }

  /** The next command fades, with nothing lost so far, exactly if it drops one blink. */
  lemma FirstFading(commands: seq<DrawCommand>)
    requires commands != [] && LostAfter(commands[..|commands| - 1]) == {}
    ensures LostAfter(commands) == {} <==> |commands| >= 2 ==> !DropsOneBlinkAt(commands, |commands| - 2)
  {
    var front, last := commands[..|commands| - 1], commands[|commands| - 1];
    if last.Put? {
      NothingLostBefore(StyleAfter(front).modifier, last.cell.modifier);
    }
  }

  lemma FadesVisibly(command: DrawCommand, commands: seq<DrawCommand>)
    requires commands != [] && command == commands[|commands| - 1]
    ensures FadedCommand(command, LostAfter(commands)) == command <==> LostAfter(commands) == {}
  {
    LostIsWanted(commands);
    var lost := LostAfter(commands);
    if command.Put? {
      assert command.cell.modifier - lost == command.cell.modifier <==> lost == {};
    }
  }

  /** Every command is carried out as it stands if and only if no put drops one of two blinks of the put
      before it. */
  lemma {:induction false} FadesExactly(commands: seq<DrawCommand>)
    ensures Fade(commands) == commands <==> KeepsBlinks(commands)
    ensures KeepsBlinks(commands) ==> LostAfter(commands) == {}
  {
    if commands != [] {
      var front, last := commands[..|commands| - 1], commands[|commands| - 1];
      FadesExactly(front);
      FadesVisibly(last, commands);
      assert commands == front + [last];
      if |commands| >= 2 { KeepsBlinksSnoc(commands); }
      if KeepsBlinks(front) {
        FirstFading(commands);
      }
    }
  }

  // ----- a faded put stays visible -----

  ghost predicate CoherentScreen(screen: Screen) { forall y :: 0 <= y < |screen| ==> Coherent(screen[y]) }

  /** A column keeps what it shows when something is printed behind it. */
  lemma PrintKeepsFront(line: Line, j: nat, x: nat, width: nat, look: Look)
    requires Coherent(line) && j < |line| && j < x && (line[j].Wide? ==> j + 1 < x)
    ensures Print(line, x, width, look)[j] == line[j] && Coherent(Print(line, x, width, look))
  {
    PrintKeepsCoherent(line, x, width, look);
    assert TailAt(line, x) ==> WideAt(line, x - 1);
  }

  lemma {:induction false} SpacesKeepFront(line: Line, j: nat, x: nat, count: nat, look: Look)
    requires Coherent(line) && j < |line| && j < x && (line[j].Wide? ==> j + 1 < x)
    ensures PrintSpaces(line, x, count, look)[j] == line[j] && Coherent(PrintSpaces(line, x, count, look))
    decreases count
  {
    if count > 0 {
      PrintKeepsFront(line, j, x, 1, look);
      SpacesKeepFront(Print(line, x, 1, look), j, x + 1, count - 1, look);
    }
  }

  lemma {:induction false} SpacesKeepCoherent(line: Line, x: nat, count: nat, look: Look)
    requires Coherent(line)
    ensures Coherent(PrintSpaces(line, x, count, look))
    decreases count
  {
    if count > 0 {
      PrintKeepsCoherent(line, x, 1, look);
      SpacesKeepCoherent(Print(line, x, 1, look), x + 1, count - 1, look);
    }
  }

  lemma DrawKeepsCoherent(screen: Screen, command: DrawCommand)
    requires CoherentScreen(screen)
    ensures CoherentScreen(Draw(screen, command))
  {
    hide Coherent;
    hide PrintSpaces;
    hide Print;
    hide Erase;
    if command.y < |screen| {
      var line := screen[command.y];
      match command
      case Put(x, y, cell, prefillWidth) =>
        var fill := Styled(" ", StyleOf(cell));
        SpacesKeepCoherent(line, x, prefillWidth, fill);
        PrintKeepsCoherent(if prefillWidth > 1 then PrintSpaces(line, x, prefillWidth, fill) else line,
                           x, CellWidth(cell), LookOf(cell));
      case ClearToEnd(x, y, bg) =>
        EraseKeepsCoherent(line, x, bg);
    }
  }

  lemma {:induction false} RunKeepsCoherent(screen: Screen, commands: seq<DrawCommand>)
    requires CoherentScreen(screen)
    ensures CoherentScreen(Run(screen, commands))
  {
    if commands != [] {
      RunKeepsCoherent(screen, commands[..|commands| - 1]);
      DrawKeepsCoherent(Run(screen, commands[..|commands| - 1]), commands[|commands| - 1]);
    }
  }

  lemma {:induction false} RunKeepsLengths(screen: Screen, commands: seq<DrawCommand>, y: nat)
    requires y < |screen|
    ensures |Run(screen, commands)[y]| == |screen[y]|
  {
    hide PrintSpaces;
    hide Print;
    hide Erase;
    if commands != [] {
      RunKeepsLengths(screen, commands[..|commands| - 1], y);
    }
  }

  /** What a put leaves in its first column. */
  function ColumnOf(cell: Cell): Column { if CellWidth(cell) == 2 then Wide(LookOf(cell)) else Narrow(LookOf(cell)) }

  lemma PutShows(screen: Screen, command: DrawCommand)
    requires command.Put? && command.y < |screen| && 1 <= CellWidth(command.cell) <= 2
    requires command.x + CellWidth(command.cell) <= |screen[command.y]|
    ensures |Draw(screen, command)[command.y]| == |screen[command.y]|
    ensures Draw(screen, command)[command.y][command.x] == ColumnOf(command.cell)
  {
    hide PrintSpaces;
  }

  lemma PutKeepsFront(screen: Screen, command: DrawCommand, y: nat, j: nat)
    requires CoherentScreen(screen) && command.Put? && y < |screen| && j < |screen[y]|
    requires command.y == y ==> j < command.x && (screen[y][j].Wide? ==> j + 1 < command.x)
    ensures |Draw(screen, command)[y]| == |screen[y]| && Draw(screen, command)[y][j] == screen[y][j]
  {
    hide Coherent;
    hide PrintSpaces;
    hide Print;
    if command.y == y {
      var line, cell, fill := screen[y], command.cell, Styled(" ", StyleOf(command.cell));
      SpacesKeepFront(line, j, command.x, command.prefillWidth, fill);
      var filled := if command.prefillWidth > 1 then PrintSpaces(line, command.x, command.prefillWidth, fill) else line;
      PrintKeepsFront(filled, j, command.x, CellWidth(cell), LookOf(cell));
    }
  }

  /** The commands of a diff: each justified by the frames, clears before puts, puts in reading order. */
  ghost predicate DiffCommands(previous: Buffer, current: Buffer, commands: seq<DrawCommand>)
    requires SameShape(previous, current)
  {
    && (forall i :: 0 <= i < |commands| ==> Justified(previous, current, commands[i]))
    && InReadingOrder(commands)
    && exists clears :: ClearsThenPuts(commands, clears)
  }

  lemma LaterPutIsBehind(previous: Buffer, current: Buffer, commands: seq<DrawCommand>, i: nat, n: nat)
    requires SameShape(previous, current) && DiffCommands(previous, current, commands)
    requires i < n < |commands| && commands[i].Put?
    ensures commands[n].Put?
    ensures commands[n].y == commands[i].y ==> commands[i].x + CellWidth(commands[i].cell) <= commands[n].x
  {
    assert Justified(previous, current, commands[i]) && Justified(previous, current, commands[n]);
    assert DrawnBefore(commands, i, n);
    if commands[n].y == commands[i].y {
      var row := RowOf(current, commands[i].y);
      assert IsLeading(row, commands[n].x);
      assert commands[n].x == commands[i].x + 1 ==> !IsWide(row, commands[i].x);
    }
  }

  lemma FadedColumn(put: DrawCommand, lost: set<Attribute>)
    requires put.Put?
    ensures CellWidth(FadedCommand(put, lost).cell) == CellWidth(put.cell)
    ensures ColumnOf(FadedCommand(put, lost).cell).Wide? <==> CellWidth(put.cell) == 2
  {
  }

  /** The faded commands have drawn put `i` and those before `n`. */
  lemma {:induction false} FadedPutStays(previous: Buffer, current: Buffer, commands: seq<DrawCommand>, i: nat, n: nat)
    requires SameShape(previous, current) && DiffCommands(previous, current, commands)
    requires i < n <= |commands| && commands[i].Put?
    ensures var screen, put := Run(Show(previous), Fade(commands)[..n]), Fade(commands)[i];
      && put.Put? && put.y < |screen| && put.x < |screen[put.y]|
      && screen[put.y][put.x] == ColumnOf(put.cell)
    decreases n
  {
    hide Run;
    hide Draw;
    hide Show;
    hide Fade;
    hide LostAfter;
    hide Justified;
    hide InReadingOrder;
    hide CoherentScreen;
    hide ColumnOf;
    hide WellFormed;
    var faded := Fade(commands);
    var before := Run(Show(previous), faded[..n - 1]);
    assert faded[..n] == faded[..n - 1] + [faded[n - 1]];
    RunSnoc(Show(previous), faded[..n - 1], faded[n - 1]);
    FadeAt(commands, i);
    FadeAt(commands, n - 1);
    ShownIsCoherent(previous);
    RunKeepsCoherent(Show(previous), faded[..n - 1]);
    PutIsOnScreen(previous, current, commands[i]);
    RunKeepsLengths(Show(previous), faded[..n - 1], commands[i].y);
    FadedColumn(commands[i], LostAfter(commands[..i + 1]));
    if n == i + 1 {
      PutShows(before, faded[i]);
    } else {
      FadedPutStays(previous, current, commands, i, n - 1);
      LaterPutIsBehind(previous, current, commands, i, n - 1);
      FadedColumn(commands[n - 1], LostAfter(commands[..n]));
      PutKeepsFront(before, faded[n - 1], faded[i].y, faded[i].x);
    }
  }

  lemma ShownIsCoherent(buffer: Buffer)
    requires WellFormed(buffer)
    ensures CoherentScreen(Show(buffer))
  {
    forall y | 0 <= y < buffer.height
      ensures Coherent(Show(buffer)[y])
    {
      ShownRowIsCoherent(RowOf(buffer, y));
    }
  }

  lemma PutIsOnScreen(previous: Buffer, current: Buffer, put: DrawCommand)
    requires SameShape(previous, current) && put.Put? && Justified(previous, current, put)
    ensures put.y < |Show(previous)| == |Show(current)|
    ensures 1 <= CellWidth(put.cell) <= 2
    ensures put.x + CellWidth(put.cell) <= |Show(previous)[put.y]| == |Show(current)[put.y]|
    ensures Show(current)[put.y][put.x] == ColumnOf(put.cell)
  {
    var row := RowOf(current, put.y);
    assert IsWide(row, put.x) ==> put.x + 1 < |row|;
  }

  lemma FadedLooksDifferent(cell: Cell, faded: Cell)
    requires faded == cell.(modifier := faded.modifier) && faded.modifier < cell.modifier
    ensures ColumnOf(faded) != ColumnOf(cell)
  {
    assert cell.modifier != {};
  }

  /** The commands of a diff, as the terminal carries them out, draw the current frame if and only if no
      put drops one of two blinks of the put before it: a faded put stays on the screen, in a look that its
      cell does not have. */
  lemma FadedFrameIsRight(previous: Buffer, current: Buffer, commands: seq<DrawCommand>)
    requires SameShape(previous, current) && DiffCommands(previous, current, commands)
    requires Run(Show(previous), commands) == Show(current)
    ensures Run(Show(previous), Fade(commands)) == Show(current) <==> KeepsBlinks(commands)
  {
    hide Run;
    hide Show;
    hide Justified;
    hide InReadingOrder;
    hide Fade;
    hide KeepsBlinks;
    FadesExactly(commands);
    var faded := Fade(commands);
    if faded != commands {
      var i :| 0 <= i < |commands| && faded[i] != commands[i];
      FadeAt(commands, i);
      PutIsOnScreen(previous, current, commands[i]);
      FadedPutStays(previous, current, commands, i, |commands|);
      assert faded[..|commands|] == faded;
      FadedLooksDifferent(commands[i].cell, faded[i].cell);
    }
  }

  /** No cell blinks both ways. */
  ghost predicate BlinksOneWay(buffer: Buffer)
    requires |buffer.content| == buffer.width * buffer.height
  {
    forall y, j :: 0 <= y < buffer.height && 0 <= j < buffer.width ==> !(BLINKS <= RowOf(buffer, y)[j].modifier)
  }

  /** A frame whose cells never blink both ways is always drawn right. */
  lemma OneWayBlinksAreKept(previous: Buffer, current: Buffer, commands: seq<DrawCommand>)
    requires SameShape(previous, current) && DiffCommands(previous, current, commands) && BlinksOneWay(current)
    ensures KeepsBlinks(commands)
  {
    forall i: nat | i + 1 < |commands|
      ensures !DropsOneBlinkAt(commands, i)
    {
      assert Justified(previous, current, commands[i]);
    }
  }

  /** A letter that blinks both ways, then one that blinks rapidly: the second is printed without. */
  lemma BlinkGetsLost()
    ensures var a := Cell("a", 1, Color.Reset, Color.Reset, Color.Reset, {SlowBlink, RapidBlink}, Standard);
      var b := Cell("b", 1, Color.Reset, Color.Reset, Color.Reset, {RapidBlink}, Standard);
      Fade([Put(0, 0, a, 0), Put(1, 0, b, 0)]) == [Put(0, 0, a, 0), Put(1, 0, b.(modifier := {}), 0)]
  {
    var a := Cell("a", 1, Color.Reset, Color.Reset, Color.Reset, {SlowBlink, RapidBlink}, Standard);
    var b := Cell("b", 1, Color.Reset, Color.Reset, Color.Reset, {RapidBlink}, Standard);
    var commands := [Put(0, 0, a, 0), Put(1, 0, b, 0)];
    assert commands[..1] == [Put(0, 0, a, 0)] && commands[..1][..0] == [];
    assert LostAfter(commands[..1]) == {} && LostAfter(commands) == {RapidBlink};
    FadeAt(commands, 0);
    FadeAt(commands, 1);
    assert commands[..2] == commands;
    assert a.modifier - {} == a.modifier && b.modifier - {RapidBlink} == {};
  }
}
