/** Index arithmetic of list selections: pages, and a window that follows the selection. */
module ListSelection {
  import opened Numbers
  import opened Wrappers

  datatype Direction = Previous | Next

  // ----- pages -----

  datatype PagedSelection = PagedSelection(selected: nat, itemCount: nat) {
    static function New(selected: nat, itemCount: nat): PagedSelection {
      PagedSelection(Min(selected, Minus(itemCount, 1)), itemCount)
    }

    predicate Valid() { selected < itemCount || selected == 0 }

    function MoveSelection(direction: Direction): nat {
      if itemCount == 0 then 0
      else match direction
        case Previous => Minus(selected, 1)
        case Next => Min(selected + 1, Minus(itemCount, 1))
    }

    function MovePage(direction: Direction, requestedSize: nat): nat {
      if itemCount == 0 then 0
      else
        var pageSize := Max(requestedSize, 1);
        var currentPage, lastPage := selected / pageSize, Minus(itemCount, 1) / pageSize;
        var nextPage :=
          match direction
          case Previous => Minus(currentPage, 1)
          case Next => Min(currentPage + 1, lastPage);
        Min(nextPage * pageSize, Minus(itemCount, 1))
    }

    function PageStart(requestedSize: nat): nat {
      var pageSize := Max(requestedSize, 1);
      selected / pageSize * pageSize
    }

    /** First index of the page and the index behind its last. */
    function PageIndices(requestedSize: nat): (nat, nat) {
      var pageSize := Max(requestedSize, 1);
      var start := Min(PageStart(pageSize), itemCount);
      (start, Min(start + pageSize, itemCount))
    }

    function PageNumber(requestedSize: nat): nat {
      if itemCount == 0 then 1 else selected / Max(requestedSize, 1) + 1
    }

    function PageCount(requestedSize: nat): nat {
      if itemCount == 0 then 1 else Minus(itemCount, 1) / Max(requestedSize, 1) + 1
    }

    function SelectVisibleIndex(requestedSize: nat, visibleOffset: nat): Option<nat> {
      var index := PageStart(requestedSize) + visibleOffset;
      if index < itemCount then Some(index) else None
    }
  }

  /** The page that holds an index, counted from zero. */
  function PageOf(index: nat, requestedSize: nat): nat { index / Max(requestedSize, 1) }

  lemma StartOf(n: nat, d: nat)
    requires d > 0
    ensures n / d * d <= n < n / d * d + d
  {
  }

  /** The visible indices are exactly the items on the selected item's page. */
  lemma PageShowsExactlyItsItems(s: PagedSelection, size: nat, index: nat)
    requires s.Valid()
    ensures var (start, end) := s.PageIndices(size);
      start <= index < end <==> index < s.itemCount && PageOf(index, size) == PageOf(s.selected, size)
  {
    var d := Max(size, 1);
    var page := s.selected / d;
    StartOf(s.selected, d);
    StartOf(index, d);
    assert s.PageStart(d) == page * d;
    if page * d <= index < page * d + d { DivisionIs(index, d, page); }
  }

  /** The page number lies between 1 and the page count, both one-based, and the count is that of the
      last item's page; an empty list has one page. */
  lemma PageNumbersAreInRange(s: PagedSelection, size: nat)
    requires s.Valid()
    ensures s.itemCount == 0 ==> s.PageNumber(size) == s.PageCount(size) == 1
    ensures 1 <= s.PageNumber(size) <= s.PageCount(size)
    ensures s.itemCount > 0 ==> s.PageNumber(size) == PageOf(s.selected, size) + 1
                                && s.PageCount(size) == PageOf(s.itemCount - 1, size) + 1
  {
    if s.itemCount > 0 { QuotientsGrow(s.selected, s.itemCount - 1, Max(size, 1)); }
  }

  lemma QuotientsGrow(a: nat, b: nat, d: nat)
    requires a <= b && d > 0
    ensures a / d <= b / d
  {
    StartOf(a, d);
    StartOf(b, d);
    if b / d < a / d { TimesAtLeast(d, b / d + 1, a / d); }
  }

  /** Moving a page selects the first item of the neighbouring page, or of the same page at the ends. */
  lemma MovePageMovesOnePage(s: PagedSelection, direction: Direction, size: nat)
    requires s.Valid() && s.itemCount > 0
    ensures var moved := PagedSelection(s.MovePage(direction, size), s.itemCount);
      && moved.Valid() && moved.PageStart(size) == moved.selected
      && moved.PageNumber(size)
         == (match direction
             case Previous => Max(s.PageNumber(size) - 1, 1)
             case Next => Min(s.PageNumber(size) + 1, s.PageCount(size)))
  {
    MovePageStartsThePage(s, direction, size);
    hide PagedSelection.MovePage;
    var page := NeighbouringPage(s, direction, size);
    QuotientOfMultiple(page, Max(size, 1));
  }

  lemma QuotientOfMultiple(page: nat, d: nat)
    requires d > 0
    ensures page * d / d == page
  {
    assert page * d == d * page;
    DivisionIs(page * d, d, page);
  }

  lemma MovePageStartsThePage(s: PagedSelection, direction: Direction, size: nat)
    requires s.Valid() && s.itemCount > 0
    ensures s.MovePage(direction, size) == NeighbouringPage(s, direction, size) * Max(size, 1) < s.itemCount
  {
    StartOf(s.itemCount - 1, Max(size, 1));
    TimesAtLeast(Max(size, 1), NeighbouringPage(s, direction, size), PageOf(s.itemCount - 1, size));
  }

  function NeighbouringPage(s: PagedSelection, direction: Direction, size: nat): (page: nat)
    requires s.Valid() && s.itemCount > 0
    ensures page <= PageOf(s.itemCount - 1, size)
  {
    QuotientsGrow(s.selected, s.itemCount - 1, Max(size, 1));
    match direction
    case Previous => Minus(PageOf(s.selected, size), 1)
    case Next => Min(PageOf(s.selected, size) + 1, PageOf(s.itemCount - 1, size))
  }

  /** A click selects the item that many rows below the first visible one, if there is one. Clicking the
      selected row selects it again; a click stays on the page exactly when its offset is below the page
      size. */
  lemma VisibleIndexOnPage(s: PagedSelection, size: nat, offset: nat)
    requires s.Valid() && s.itemCount > 0
    ensures var clicked := s.PageIndices(size).0 + offset;
      s.SelectVisibleIndex(size, offset) == if clicked < s.itemCount then Some(clicked) else None
    ensures s.SelectVisibleIndex(size, s.selected - s.PageStart(size)) == Some(s.selected)
    ensures s.SelectVisibleIndex(size, offset).Some? ==>
      (PageOf(s.SelectVisibleIndex(size, offset).value, size) == PageOf(s.selected, size) <==> offset < Max(size, 1))
  {
    var d := Max(size, 1);
    var page := s.selected / d;
    StartOf(s.selected, d);
    var index := page * d + offset;
    if offset < d {
      DivisionIs(index, d, page);
    } else {
      StartOf(index, d);
    }
  }

  /** The eighth row below the first of ten, on pages of five, is on the next page. */
  lemma VisibleIndexLeavesThePage()
    ensures var s := PagedSelection.New(0, 10);
      s.SelectVisibleIndex(5, 7) == Some(7) && PageOf(7, 5) != PageOf(s.selected, 5)
  {
    DivisionIs(7, 5, 1);
  }

  /** Single steps go to the neighbour, stay where there is none, and so undo each other except at the
      ends. */
  lemma StepsAreInverse(s: PagedSelection)
    requires s.Valid()
    ensures s.MoveSelection(Next) == if s.selected + 1 < s.itemCount then s.selected + 1 else s.selected
    ensures s.MoveSelection(Previous) == if s.selected > 0 then s.selected - 1 else s.selected
    ensures forall direction :: PagedSelection(s.MoveSelection(direction), s.itemCount).Valid()
    ensures s.selected + 1 < s.itemCount ==>
      PagedSelection(s.MoveSelection(Next), s.itemCount).MoveSelection(Previous) == s.selected
    ensures 0 < s.selected ==>
      PagedSelection(s.MoveSelection(Previous), s.itemCount).MoveSelection(Next) == s.selected
  {
    forall direction: Direction
      ensures PagedSelection(s.MoveSelection(direction), s.itemCount).Valid()
    {
      match direction
      case Previous =>
      case Next =>
    }
  }

  /** A selection is clamped to the nearest item. */
  lemma NewClampsToNearest(selected: nat, itemCount: nat, other: nat)
    requires other < itemCount
    ensures PagedSelection.New(selected, itemCount).selected < itemCount
    ensures Distance(selected, PagedSelection.New(selected, itemCount).selected) <= Distance(selected, other)
    ensures VisibleWindowSelection.New(selected, itemCount).selected == PagedSelection.New(selected, itemCount).selected
  {
  }

  // ----- the window -----

  datatype VisibleWindowSelection = VisibleWindowSelection(selected: nat, itemCount: nat) {
    static function New(selected: nat, itemCount: nat): VisibleWindowSelection {
      VisibleWindowSelection(Min(selected, Minus(itemCount, 1)), itemCount)
    }

    predicate Valid() { selected < itemCount || selected == 0 }

    function MoveSelection(direction: Direction): nat {
      PagedSelection.New(selected, itemCount).MoveSelection(direction)
    }

    function SelectVisibleIndex(scrollStart: nat, visibleOffset: nat): Option<nat> {
      var index := scrollStart + visibleOffset;
      if index < itemCount then Some(index) else None
    }
  }

  /** In the window, too, steps go to the neighbour and stay where there is none. A click on a window row
      selects the item shown there, and clicking the selected row selects it again. */
  lemma WindowStepsAndClicks(s: VisibleWindowSelection, start: nat, offset: nat)
    requires s.Valid()
    ensures s.MoveSelection(Next) == if s.selected + 1 < s.itemCount then s.selected + 1 else s.selected
    ensures s.MoveSelection(Previous) == if s.selected > 0 then s.selected - 1 else s.selected
    ensures forall i :: s.SelectVisibleIndex(start, offset) == Some(i) <==> i == start + offset < s.itemCount
    ensures start <= s.selected < s.itemCount ==> s.SelectVisibleIndex(start, s.selected - start) == Some(s.selected)
  {
    StepsAreInverse(PagedSelection(s.selected, s.itemCount));
  }

  /** The window starting at `start` shows the selection and, when there are enough items, is full. */
  predicate Shows(s: VisibleWindowSelection, start: nat, rows: nat) {
    start <= s.selected < start + rows && start <= Minus(s.itemCount, rows)
  }

  function Distance(a: nat, b: nat): nat { if a < b then b - a else a - b }

  method ScrollStartForSelection(s: VisibleWindowSelection, currentScrollStart: nat, requestedRows: nat)
    returns (start: nat)
    requires s.Valid()
    ensures s.itemCount == 0 ==> start == 0
    ensures s.itemCount > 0 ==> Shows(s, start, Max(requestedRows, 1))
    ensures s.itemCount > 0 ==> forall other :: Shows(s, other, Max(requestedRows, 1)) ==>
      Distance(currentScrollStart, start) <= Distance(currentScrollStart, other)
  {
    if s.itemCount == 0 { return 0; }
    var visibleRows := Max(requestedRows, 1);
    var maxScrollStart := Minus(s.itemCount, visibleRows);
    var scrollStart := Min(currentScrollStart, maxScrollStart);
    if s.selected < scrollStart {
      scrollStart := s.selected;
    }
    if s.selected >= scrollStart + visibleRows {
      scrollStart := s.selected + 1 - visibleRows;
    }
    start := Min(scrollStart, maxScrollStart);
  }
}
