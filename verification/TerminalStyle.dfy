/** Writing a style: only what differs from the style written last is sent to the terminal. */
module TerminalStyle {
  import opened TerminalScreen

  const DEFAULT_STYLE := Style(Reset, Reset, Reset, {})

  /** Sequences that take attributes back (SGR, section 8.3.117 of ECMA-48). */
  datatype Off = NormalIntensity | NoItalic | NoUnderline | NoBlink | NoReverse | NoHidden | NotCrossedOut

  const INTENSITIES: set<Attribute> := {Bold, Dim}
  const BLINKS: set<Attribute> := {SlowBlink, RapidBlink}

  /** One sequence takes back both intensities, and one both blinks. */
  function TakenBack(off: Off): set<Attribute> {
    match off
    case NormalIntensity => INTENSITIES
    case NoItalic => {Italic}
    case NoUnderline => {Underlined}
    case NoBlink => BLINKS
    case NoReverse => {Reversed}
    case NoHidden => {Hidden}
    case NotCrossedOut => {CrossedOut}
  }

  datatype Sgr =
    | Colors(fg: Color, bg: Color) | Foreground(color: Color) | Background(color: Color) | UnderlineColor(color: Color)
    | SwitchOn(attribute: Attribute) | SwitchOff(off: Off) | ResetAll

  /** The style in which the terminal prints from then on. */
  function Apply(pen: Style, change: Sgr): Style {
    match change
    case Colors(fg, bg) => pen.(fg := fg, bg := bg)
    case Foreground(color) => pen.(fg := color)
    case Background(color) => pen.(bg := color)
    case UnderlineColor(color) => pen.(underlineColor := color)
    case SwitchOn(attribute) => pen.(modifier := pen.modifier + {attribute})
    case SwitchOff(off) => pen.(modifier := pen.modifier - TakenBack(off))
    case ResetAll => DEFAULT_STYLE
  }

  function ApplyAll(pen: Style, changes: seq<Sgr>): Style {
    if changes == [] then pen
    else Apply(ApplyAll(pen, changes[..|changes| - 1]), changes[|changes| - 1])
  }

  lemma NothingApplied(pen: Style)
    ensures ApplyAll(pen, []) == pen
  {
  }

  lemma ApplySnoc(pen: Style, changes: seq<Sgr>, change: Sgr)
    ensures ApplyAll(pen, changes + [change]) == Apply(ApplyAll(pen, changes), change)
  {
    assert (changes + [change])[..|changes|] == changes;
  }

  lemma {:induction false} ApplyAppend(pen: Style, a: seq<Sgr>, b: seq<Sgr>)
    ensures ApplyAll(pen, a + b) == ApplyAll(ApplyAll(pen, a), b)
  {
    if b == [] {
      assert a + b == a;
    } else {
      assert (a + b)[..|a + b| - 1] == a + b[..|b| - 1];
      ApplyAppend(pen, a, b[..|b| - 1]);
    }
  }

  // ----- attributes -----

  /** The attributes of `style` that the terminal lacks, if it has lost some. */
  function Faded(style: Style, lost: set<Attribute>): Style { style.(modifier := style.modifier - lost) }

  /** What the terminal lacks after a change of attributes: taking back one blink takes the other along,
      and no sequence brings that back. */
  function LostBlinks(lost: set<Attribute>, from: set<Attribute>, to: set<Attribute>): set<Attribute> {
    if SlowBlink in from - to || RapidBlink in from - to then from * to * BLINKS else lost
  }

  function When(condition: bool, attributes: set<Attribute>): set<Attribute> {
    if condition then attributes else {}
  }

  method QueueOff(condition: bool, off: Off, changes: seq<Sgr>, ghost pen: Style) returns (extended: seq<Sgr>)
    ensures var before := ApplyAll(pen, changes);
      ApplyAll(pen, extended) == before.(modifier := before.modifier - When(condition, TakenBack(off)))
  {
    extended := changes;
    if condition {
      ApplySnoc(pen, changes, SwitchOff(off));
      extended := extended + [SwitchOff(off)];
    }
  }

  method QueueOn(condition: bool, attribute: Attribute, changes: seq<Sgr>, ghost pen: Style)
    returns (extended: seq<Sgr>)
    ensures var before := ApplyAll(pen, changes);
      ApplyAll(pen, extended) == before.(modifier := before.modifier + When(condition, {attribute}))
  {
    extended := changes;
    if condition {
      ApplySnoc(pen, changes, SwitchOn(attribute));
      extended := extended + [SwitchOn(attribute)];
    }
  }

  /** Takes back what is not wanted any more; an intensity that is still wanted is switched on again. */
  method QueueRemoved(from: set<Attribute>, to: set<Attribute>, ghost pen: Style) returns (changes: seq<Sgr>)
    ensures ApplyAll(pen, changes) == pen.(modifier := Kept(pen.modifier, from, to))
  {
    hide TakenBack;
    hide ApplyAll;
    hide When;
    NothingApplied(pen);
    var removed := from - to;
    var dimmed := Bold in removed || Dim in removed;
    changes := QueueOff(Reversed in removed, NoReverse, [], pen);
    changes := QueueOff(dimmed, NormalIntensity, changes, pen);
    changes := QueueOn(dimmed && Dim in to, Dim, changes, pen);
    changes := QueueOn(dimmed && Bold in to, Bold, changes, pen);
    changes := QueueOff(Italic in removed, NoItalic, changes, pen);
    changes := QueueOff(Underlined in removed, NoUnderline, changes, pen);
    changes := QueueOff(CrossedOut in removed, NotCrossedOut, changes, pen);
    changes := QueueOff(SlowBlink in removed || RapidBlink in removed, NoBlink, changes, pen);
    changes := QueueOff(Hidden in removed, NoHidden, changes, pen);
  }

  function Kept(worn: set<Attribute>, from: set<Attribute>, to: set<Attribute>): set<Attribute> {
    var removed := from - to;
    var dimmed := Bold in removed || Dim in removed;
    worn - When(Reversed in removed, TakenBack(NoReverse)) - When(dimmed, TakenBack(NormalIntensity))
    + When(dimmed && Dim in to, {Dim}) + When(dimmed && Bold in to, {Bold})
    - When(Italic in removed, TakenBack(NoItalic)) - When(Underlined in removed, TakenBack(NoUnderline))
    - When(CrossedOut in removed, TakenBack(NotCrossedOut))
    - When(SlowBlink in removed || RapidBlink in removed, TakenBack(NoBlink))
    - When(Hidden in removed, TakenBack(NoHidden))
  }

  ghost predicate KeptAsWanted(worn: set<Attribute>, from: set<Attribute>, to: set<Attribute>, lost: set<Attribute>,
                               a: Attribute)
  {
    a in Kept(worn, from, to) + (to - from) <==> a in to - LostBlinks(lost, from, to)
  }

  lemma IntensityKept(worn: set<Attribute>, from: set<Attribute>, to: set<Attribute>, lost: set<Attribute>,
                      a: Attribute)
    requires lost <= from * BLINKS && worn == from - lost && a in INTENSITIES
    ensures KeptAsWanted(worn, from, to, lost, a)
  {
  }

  lemma BlinkKept(worn: set<Attribute>, from: set<Attribute>, to: set<Attribute>, lost: set<Attribute>, a: Attribute)
    requires lost <= from * BLINKS && worn == from - lost && a in BLINKS
    ensures KeptAsWanted(worn, from, to, lost, a)
  {
  }

  lemma OtherKept(worn: set<Attribute>, from: set<Attribute>, to: set<Attribute>, lost: set<Attribute>, a: Attribute)
    requires lost <= from * BLINKS && worn == from - lost && a !in INTENSITIES + BLINKS
    ensures KeptAsWanted(worn, from, to, lost, a)
  {
  }

  lemma RemovedThenAdded(worn: set<Attribute>, from: set<Attribute>, to: set<Attribute>, lost: set<Attribute>)
    requires lost <= from * BLINKS && worn == from - lost
    ensures Kept(worn, from, to) + (to - from) == to - LostBlinks(lost, from, to)
  {
    var kept := Kept(worn, from, to);
    forall a: Attribute
      ensures a in kept + (to - from) <==> a in to - LostBlinks(lost, from, to)
    {
      match a
      case Bold => IntensityKept(worn, from, to, lost, a);
      case Dim => IntensityKept(worn, from, to, lost, a);
      case SlowBlink => BlinkKept(worn, from, to, lost, a);
      case RapidBlink => BlinkKept(worn, from, to, lost, a);
      case _ => OtherKept(worn, from, to, lost, a);
    }
  }

  /** Of `added`, those in `done` have been switched on. */
  ghost predicate AddedSoFar(before: Style, after: Style, added: set<Attribute>, done: set<Attribute>) {
    after == before.(modifier := before.modifier + added * done)
  }

  method QueueAddedOne(attribute: Attribute, added: set<Attribute>, changes: seq<Sgr>, ghost pen: Style,
                       ghost before: Style, ghost done: set<Attribute>)
    returns (extended: seq<Sgr>)
    requires AddedSoFar(before, ApplyAll(pen, changes), added, done)
    ensures AddedSoFar(before, ApplyAll(pen, extended), added, done + {attribute})
  {
    extended := changes;
    if attribute in added {
      ApplySnoc(pen, changes, SwitchOn(attribute));
      extended := extended + [SwitchOn(attribute)];
      assert added * (done + {attribute}) == added * done + {attribute};
    } else {
      assert added * (done + {attribute}) == added * done;
    }
  }

  method QueueAdded(from: set<Attribute>, to: set<Attribute>, queued: seq<Sgr>, ghost pen: Style)
    returns (changes: seq<Sgr>)
    ensures var before := ApplyAll(pen, queued);
      ApplyAll(pen, changes) == before.(modifier := before.modifier + (to - from))
  {
    hide ApplyAll;
    var added := to - from;
    ghost var before, done: set<Attribute> := ApplyAll(pen, queued), {};
    assert before.modifier + added * done == before.modifier;
    changes := queued;
    changes := QueueAddedOne(Reversed, added, changes, pen, before, done);
    done := done + {Reversed};
    changes := QueueAddedOne(Bold, added, changes, pen, before, done);
    done := done + {Bold};
    changes := QueueAddedOne(Italic, added, changes, pen, before, done);
    done := done + {Italic};
    changes := QueueAddedOne(Underlined, added, changes, pen, before, done);
    done := done + {Underlined};
    changes := QueueAddedOne(Dim, added, changes, pen, before, done);
    done := done + {Dim};
    changes := QueueAddedOne(CrossedOut, added, changes, pen, before, done);
    done := done + {CrossedOut};
    changes := QueueAddedOne(SlowBlink, added, changes, pen, before, done);
    done := done + {SlowBlink};
    changes := QueueAddedOne(RapidBlink, added, changes, pen, before, done);
    done := done + {RapidBlink};
    changes := QueueAddedOne(Hidden, added, changes, pen, before, done);
    done := done + {Hidden};
    forall a: Attribute
      ensures a in done
    {
      OneOfNine(a);
    }
    assert added * done == added;
  }

  lemma OneOfNine(a: Attribute)
    ensures || a == Reversed || a == Bold || a == Italic || a == Underlined || a == Dim
            || a == CrossedOut || a == SlowBlink || a == RapidBlink || a == Hidden
  {
    match a
    case Reversed =>
    case _ =>
  }

  method QueueModifierDiff(from: set<Attribute>, to: set<Attribute>, ghost pen: Style, ghost lost: set<Attribute>)
    returns (changes: seq<Sgr>)
    requires lost <= from * BLINKS && pen.modifier == from - lost
    ensures ApplyAll(pen, changes) == pen.(modifier := to - LostBlinks(lost, from, to))
  {
    changes := QueueRemoved(from, to, pen);
    RemovedThenAdded(pen.modifier, from, to, lost);
    changes := QueueAdded(from, to, changes, pen);
  }

  // ----- the style state -----

  /** The pen is the style, except for lost blinks. */
  ghost predicate Follows(pen: Style, style: Style, lost: set<Attribute>) {
    lost <= style.modifier * BLINKS && pen == Faded(style, lost)
  }

  class TerminalStyleState {
    var fg: Color
    var bg: Color
    var underlineColor: Color
    var modifier: set<Attribute>

    function Current(): Style
      reads this
    {
      Style(fg, bg, underlineColor, modifier)
    }

    constructor ()
      ensures Current() == DEFAULT_STYLE
    {
      fg, bg, underlineColor, modifier := Color.Reset, Color.Reset, Color.Reset, {};
    }

    method QueueCell(cell: Cell, ghost pen: Style, ghost lost: set<Attribute>) returns (changes: seq<Sgr>)
      requires Follows(pen, Current(), lost)
      modifies this
      ensures Current() == StyleOf(cell)
      ensures Follows(ApplyAll(pen, changes), StyleOf(cell), LostBlinks(lost, old(modifier), cell.modifier))
    {
      changes := [];
      if cell.modifier != modifier {
        changes := QueueModifierDiff(modifier, cell.modifier, pen, lost);
        modifier := cell.modifier;
      }
      if cell.fg != fg || cell.bg != bg {
        ApplySnoc(pen, changes, Colors(cell.fg, cell.bg));
        changes := changes + [Colors(cell.fg, cell.bg)];
        fg, bg := cell.fg, cell.bg;
      }
      if cell.underlineColor != underlineColor {
        ApplySnoc(pen, changes, UnderlineColor(cell.underlineColor));
        changes := changes + [UnderlineColor(cell.underlineColor)];
        underlineColor := cell.underlineColor;
      }
    }

    method QueueBackground(color: Color) returns (changes: seq<Sgr>)
      modifies this
      ensures Current() == old(Current()).(bg := color) == ApplyAll(old(Current()), changes)
    {
      changes := [];
      if bg != color {
        ApplySnoc(Current(), [], Background(color));
        changes := [Background(color)];
        bg := color;
      }
    }

    method Reset(ghost pen: Style) returns (changes: seq<Sgr>)
      modifies this
      ensures Current() == DEFAULT_STYLE == ApplyAll(pen, changes)
    {
      changes := [Foreground(Color.Reset), Background(Color.Reset), UnderlineColor(Color.Reset), ResetAll];
      fg, bg, underlineColor, modifier := Color.Reset, Color.Reset, Color.Reset, {};
    }
  }
}
