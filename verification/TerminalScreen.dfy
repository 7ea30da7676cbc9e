/** What a character terminal shows, and how it reacts to printing and clearing.

    The screen is a grid of columns. A two-column glyph occupies its own column and a hidden tail;
    destroying either half leaves the other half torn: its look is unspecified, so a correct
    renderer has to overwrite it. */
module TerminalScreen {

  datatype Color = Reset | Indexed(index: nat)

  datatype Attribute =
    | Bold | Dim | Italic | Underlined | SlowBlink | RapidBlink | Reversed | Hidden | CrossedOut

  datatype DiffOption = Standard | AlwaysUpdate | Skip | ForcedWidth(columns: nat)

  /** One buffer cell. `symbolWidth` is what the Unicode width table says about `symbol`. */
  datatype Cell = Cell(
    symbol: string, symbolWidth: nat,
    fg: Color, bg: Color, underlineColor: Color, modifier: set<Attribute>,
    diffOption: DiffOption)

  function CellWidth(cell: Cell): nat {
    match cell.diffOption
    case ForcedWidth(columns) => columns
    case _ => cell.symbolWidth
  }

  datatype Style = Style(fg: Color, bg: Color, underlineColor: Color, modifier: set<Attribute>)

  function StyleOf(cell: Cell): Style { Style(cell.fg, cell.bg, cell.underlineColor, cell.modifier) }

  /** What the eye can see of a printed cell. */
  datatype Look = Look(text: string, fg: Color, bg: Color, underlineColor: Color, modifier: set<Attribute>)

  /** A plain space shows its background and nothing else. */
  function Blank(bg: Color): Look {
    Look(" ", Reset, bg, Reset, {})
  }

  function Styled(text: string, style: Style): Look {
    if text == " " && style.modifier == {} then Blank(style.bg)
    else Look(text, style.fg, style.bg, style.underlineColor, style.modifier)
  }

  function LookOf(cell: Cell): Look {
    Styled(cell.symbol, StyleOf(cell))
  }

  datatype Column = Narrow(look: Look) | Wide(look: Look) | Tail | Torn

  type Line = seq<Column>
  type Screen = seq<Line>

  // ----- printing and clearing -----

  /** Column `j` after a glyph of `width` columns is printed at `x`. */
  function PrintedAt(line: Line, x: nat, width: nat, look: Look, j: nat): Column
    requires j < |line| && 1 <= width <= 2 && x + width <= |line|
  {
    if j == x then (if width == 2 then Wide(look) else Narrow(look))
    else if j == x + 1 && width == 2 then Tail
    else if j + 1 == x && line[x].Tail? then Torn
    else if j == x + width && line[j - 1].Wide? then Torn
    else line[j]
  }

  function Print(line: Line, x: nat, width: nat, look: Look): (r: Line)
    ensures |r| == |line|
  {
    if 1 <= width <= 2 && x + width <= |line| then
      seq(|line|, j requires 0 <= j < |line| => PrintedAt(line, x, width, look, j))
    else line
  }

  /** Prints `count` spaces from column `x` on, one after the other. */
  function PrintSpaces(line: Line, x: nat, count: nat, look: Look): (r: Line)
    ensures |r| == |line|
    decreases count
  {
    if count == 0 then line
    else PrintSpaces(Print(line, x, 1, look), x + 1, count - 1, look)
  }

  function Erase(line: Line, x: nat, bg: Color): (r: Line)
    ensures |r| == |line|
  {
    seq(|line|, j requires 0 <= j < |line| =>
      if x <= j then Narrow(Blank(bg))
      else if j + 1 == x < |line| && line[x].Tail? then Torn
      else line[j])
  }

  ghost predicate WideAt(line: Line, j: int) {
    0 <= j < |line| && line[j].Wide?
  }

  ghost predicate TailAt(line: Line, j: int) {
    0 <= j < |line| && line[j].Tail?
  }

  /** Tails sit exactly behind wide glyphs. */
  ghost predicate Coherent(line: Line) {
    && (forall j :: WideAt(line, j) ==> TailAt(line, j + 1))
    && (forall j :: TailAt(line, j) ==> WideAt(line, j - 1))
  }

  lemma PrintKeepsCoherent(line: Line, x: nat, width: nat, look: Look)
    requires Coherent(line)
    ensures Coherent(Print(line, x, width, look))
  {
    var r := Print(line, x, width, look);
    if 1 <= width <= 2 && x + width <= |line| {
      assert TailAt(line, x) ==> WideAt(line, x - 1);
      assert WideAt(line, x + width - 1) ==> TailAt(line, x + width);
      forall j | WideAt(r, j)
        ensures TailAt(r, j + 1)
      {
        if j != x {
          assert WideAt(line, j) && TailAt(line, j + 1);
        }
      }
      forall j | TailAt(r, j)
        ensures WideAt(r, j - 1)
      {
        if j != x + 1 || width != 2 {
          assert TailAt(line, j) && WideAt(line, j - 1);
        }
      }
    }
  }

  lemma EraseKeepsCoherent(line: Line, x: nat, bg: Color)
    requires Coherent(line)
    ensures Coherent(Erase(line, x, bg))
  {
    var r := Erase(line, x, bg);
    assert TailAt(line, x) ==> WideAt(line, x - 1);
    forall j | WideAt(r, j)
      ensures TailAt(r, j + 1)
    {
      assert WideAt(line, j) && TailAt(line, j + 1);
    }
    forall j | TailAt(r, j)
      ensures WideAt(r, j - 1)
    {
      assert TailAt(line, j) && WideAt(line, j - 1);
    }
  }

  /** Filling the columns of a wide glyph with spaces first leaves no trace after the glyph is printed. */
  lemma PrefillIsInvisible(line: Line, x: nat, fill: Look, look: Look)
    requires Coherent(line) && x + 2 <= |line|
    ensures Print(PrintSpaces(line, x, 2, fill), x, 2, look) == Print(line, x, 2, look)
  {
    var one := Print(line, x, 1, fill);
    var two := Print(one, x + 1, 1, fill);
    assert PrintSpaces(line, x, 2, fill) == two by {
      assert PrintSpaces(one, x + 1, 1, fill) == PrintSpaces(two, x + 2, 0, fill);
    }
    var a, b := Print(two, x, 2, look), Print(line, x, 2, look);
    forall j | 0 <= j < |line|
      ensures a[j] == b[j]
    {
      if j == x + 2 {
        assert WideAt(line, x + 1) ==> !WideAt(line, x);
        assert WideAt(line, x) ==> TailAt(line, x + 1);
      }
    }
  }
}
