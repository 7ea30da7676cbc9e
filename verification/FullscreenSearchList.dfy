/** The searchable list of the full-screen pickers: rows, the rows that pass the filter, and a selection
    that follows its row. */
module FullscreenSearchList {
  import opened Wrappers
  import opened Folding
  import opened Numbers
  import opened ListSelection

  /** How the caller matches a row against a query and identifies a row. */
  datatype View<!Row, !Id> = View(unicode: Unicode, matches: (Row, string) -> bool, rowId: Row -> Id)

  // ----- the filter -----

  /** The indices of the matching rows. */
  function Matching<Row, Id>(view: View<Row, Id>, rows: seq<Row>, needle: string): seq<nat> {
    if rows == [] then []
    else
      var n := |rows| - 1;
      Matching(view, rows[..n], needle) + if view.matches(rows[n], needle) then [n] else []
  }

  ghost predicate Increasing(indices: seq<nat>, bound: nat) {
    && (forall p :: 0 <= p < |indices| ==> indices[p] < bound)
    && forall p, q :: 0 <= p < q < |indices| ==> indices[p] < indices[q]
  }

  /** Exactly the rows that match the query without the white space around it, in order. */
  ghost predicate Filters<Row, Id>(view: View<Row, Id>, rows: seq<Row>, query: string, indices: seq<nat>) {
    var needle := Trim(view.unicode, query);
    && Increasing(indices, |rows|)
    && forall i: nat :: i in indices <==> i < |rows| && view.matches(rows[i], needle)
  }

  function Filtered<Row, Id>(view: View<Row, Id>, rows: seq<Row>, query: string): (indices: seq<nat>)
    ensures Filters(view, rows, query, indices)
  {
    MatchingIsExact(view, rows, Trim(view.unicode, query));
    Matching(view, rows, Trim(view.unicode, query))
  }

  /** The filter lists exactly the matching rows, in order. */
  lemma {:induction false} MatchingIsExact<Row, Id>(view: View<Row, Id>, rows: seq<Row>, needle: string)
    ensures Increasing(Matching(view, rows, needle), |rows|)
    ensures forall i: nat :: i in Matching(view, rows, needle) <==> i < |rows| && view.matches(rows[i], needle)
  {
    if rows != [] {
      var n := |rows| - 1;
      MatchingIsExact(view, rows[..n], needle);
    }
  }

  // ----- keeping the selection -----

  ghost predicate InRange(indices: seq<nat>, bound: nat) {
    forall p :: 0 <= p < |indices| ==> indices[p] < bound
  }

  /** The first position whose row has the id, if any. */
  function PositionOf<Row, Id(==)>(view: View<Row, Id>, rows: seq<Row>, indices: seq<nat>, id: Id): Option<nat> {
    if indices == [] then None
    else
      var n := |indices| - 1;
      match PositionOf(view, rows, indices[..n], id)
      case Some(p) => Some(p)
      case None => if indices[n] < |rows| && view.rowId(rows[indices[n]]) == id then Some(n) else None
  }

  /** Where the selection goes: to the wanted row, or as near the end as it has to. */
  function Restored<Row, Id(==)>(view: View<Row, Id>, rows: seq<Row>, indices: seq<nat>, id: Option<Id>,
                                 selected: nat): nat
  {
    var found := match id case Some(wanted) => PositionOf(view, rows, indices, wanted) case None => None;
    match found
    case Some(p) => p
    case None => Min(selected, Minus(|indices|, 1))
  }

  ghost predicate HasId<Row, Id>(view: View<Row, Id>, rows: seq<Row>, indices: seq<nat>, p: nat, id: Id) {
    p < |indices| && indices[p] < |rows| && view.rowId(rows[indices[p]]) == id
  }

  lemma {:induction false} PositionOfIsFirst<Row, Id>(view: View<Row, Id>, rows: seq<Row>, indices: seq<nat>, id: Id)
    ensures match PositionOf(view, rows, indices, id)
      case Some(p) => HasId(view, rows, indices, p, id) && forall q :: 0 <= q < p ==> !HasId(view, rows, indices, q, id)
      case None => forall q :: 0 <= q < |indices| ==> !HasId(view, rows, indices, q, id)
  {
    if indices != [] {
      var n := |indices| - 1;
      PositionOfIsFirst(view, rows, indices[..n], id);
      forall q | 0 <= q < n
        ensures HasId(view, rows, indices, q, id) <==> HasId(view, rows, indices[..n], q, id)
      {
      }
    }
  }

  ghost predicate UniqueIds<Row, Id>(view: View<Row, Id>, rows: seq<Row>) {
    forall i, j :: 0 <= i < j < |rows| ==> view.rowId(rows[i]) != view.rowId(rows[j])
  }

  /** A row that stays in the list stays selected, exactly when no row in front of it has its id: always,
      if ids are unique. */
  lemma RefilterKeepsTheRow<Row, Id>(view: View<Row, Id>, rows: seq<Row>, indices: seq<nat>, p: nat, selected: nat)
    requires p < |indices| && InRange(indices, |rows|)
    ensures var id := view.rowId(rows[indices[p]]);
      Restored(view, rows, indices, Some(id), selected) == p
      <==> forall q :: 0 <= q < p ==> !HasId(view, rows, indices, q, id)
    ensures UniqueIds(view, rows) && Increasing(indices, |rows|) ==>
      Restored(view, rows, indices, Some(view.rowId(rows[indices[p]])), selected) == p
  {
    var id := view.rowId(rows[indices[p]]);
    PositionOfIsFirst(view, rows, indices, id);
    assert HasId(view, rows, indices, p, id);
  }

  // ----- the list -----

  class State<!Row, !Id(==)> {
    var rows: seq<Row>
    var filteredIndices: seq<nat>
    var selected: nat
    var selectedId: Option<Id>
    var searchQuery: string
    var isSearching: bool

    /** The id of the selected row. */
    function IdOfSelected(view: View<Row, Id>): Option<Id>
      reads this
    {
      if selected < |filteredIndices| && filteredIndices[selected] < |rows|
      then Some(view.rowId(rows[filteredIndices[selected]])) else None
    }

    ghost predicate Valid(view: View<Row, Id>)
      reads this
    {
      && filteredIndices == Filtered(view, rows, searchQuery)
      && (if filteredIndices == [] then selected == 0 else selected < |filteredIndices|)
      && selectedId == IdOfSelected(view)
    }

    lemma NothingSelectedOnlyWhenEmpty(view: View<Row, Id>)
      requires Valid(view)
      ensures selectedId.None? <==> filteredIndices == []
      ensures selectedId.Some? ==> filteredIndices[selected] < |rows|
    {
      MatchingIsExact(view, rows, Trim(view.unicode, searchQuery));
    }

    constructor (ghost view: View<Row, Id>)
      ensures Valid(view) && rows == [] && searchQuery == "" && !isSearching
    {
      rows, filteredIndices := [], [];
      selected, selectedId := 0, None;
      searchQuery, isSearching := "", false;
    }

    function Selection(): (s: PagedSelection)
      reads this
      ensures s.Valid()
    {
      PagedSelection.New(selected, |filteredIndices|)
    }

    method StartSearch(ghost view: View<Row, Id>)
      requires Valid(view)
      modifies this`isSearching
      ensures Valid(view) && isSearching
    {
      isSearching := true;
    }

    method SyncSelectedId(view: View<Row, Id>)
      modifies this`selectedId
      ensures selectedId == IdOfSelected(view)
    {
      selectedId := IdOfSelected(view);
    }

    method RestoreSelectedIdOrClamp(view: View<Row, Id>, wanted: Option<Id>)
      modifies this`selected, this`selectedId
      ensures selected == Restored(view, rows, filteredIndices, wanted, old(selected))
      ensures selectedId == IdOfSelected(view)
    {
      if wanted.Some? {
        var position := PositionOf(view, rows, filteredIndices, wanted.value);
        if position.Some? {
          selected := position.value;
          SyncSelectedId(view);
          return;
        }
      }
      selected := Min(selected, Minus(|filteredIndices|, 1));
      SyncSelectedId(view);
    }

    method RebuildFilteredIndices(view: View<Row, Id>)
      modifies this`filteredIndices
      ensures filteredIndices == Filtered(view, rows, searchQuery)
      ensures Filters(view, rows, searchQuery, filteredIndices)
    {
      filteredIndices := Filtered(view, rows, searchQuery);
    }

    /** Filters by the current query, whatever the state was before. */
    method ApplyFilter(view: View<Row, Id>)
      modifies this`filteredIndices, this`selected, this`selectedId
      ensures Valid(view) && Filters(view, rows, searchQuery, filteredIndices)
      ensures var wanted := if old(selectedId).Some? then old(selectedId) else old(IdOfSelected(view));
        selected == Restored(view, rows, filteredIndices, wanted, old(selected))
    {
      var wanted := if selectedId.Some? then selectedId else IdOfSelected(view);
      RebuildFilteredIndices(view);
      RestoreSelectedIdOrClamp(view, wanted);
      RestoredIsInRange(view, rows, filteredIndices, wanted, old(selected));
    }

    /** The selection follows the selected id into the new rows. */
    method ReplaceRows(view: View<Row, Id>, newRows: seq<Row>)
      requires Valid(view)
      modifies this`rows, this`filteredIndices, this`selected, this`selectedId
      ensures Valid(view) && rows == newRows
      ensures selected == Restored(view, newRows, filteredIndices, old(selectedId), old(selected))
    {
      NothingSelectedOnlyWhenEmpty(view);
      hide Matching;
      hide Filtered;
      hide Restored;
      rows := newRows;
      ApplyFilter(view);
    }

    method SelectLastRow(view: View<Row, Id>)
      requires Valid(view)
      modifies this`selected, this`selectedId
      ensures Valid(view) && selected == Minus(|filteredIndices|, 1)
    {
      if filteredIndices == [] {
        selected, selectedId := 0, None;
        return;
      }
      selected := Minus(|filteredIndices|, 1);
      SyncSelectedId(view);
    }

    method MoveSelection(view: View<Row, Id>, direction: Direction)
      requires Valid(view)
      modifies this`selected, this`selectedId
      ensures Valid(view)
      ensures selected == PagedSelection(old(selected), |filteredIndices|).MoveSelection(direction)
    {
      if filteredIndices == [] {
        selected, selectedId := 0, None;
        return;
      }
      selected := Selection().MoveSelection(direction);
      SyncSelectedId(view);
    }

    method MovePage(view: View<Row, Id>, direction: Direction, pageSize: nat)
      requires Valid(view)
      modifies this`selected, this`selectedId
      ensures Valid(view)
      ensures selected == PagedSelection(old(selected), |filteredIndices|).MovePage(direction, pageSize)
    {
      if filteredIndices == [] {
        selected, selectedId := 0, None;
        return;
      }
      MovePageMovesOnePage(Selection(), direction, pageSize);
      selected := Selection().MovePage(direction, pageSize);
      SyncSelectedId(view);
    }

    method SelectVisibleRow(view: View<Row, Id>, pageSize: nat, visibleOffset: nat) returns (hit: bool)
      requires Valid(view)
      modifies this`selected, this`selectedId
      ensures Valid(view)
      ensures var before := PagedSelection(old(selected), |filteredIndices|);
        var target := before.SelectVisibleIndex(pageSize, visibleOffset);
        hit == target.Some? && selected == if hit then target.value else old(selected)
    {
      if filteredIndices == [] {
        selected, selectedId := 0, None;
        return false;
      }
      var target := Selection().SelectVisibleIndex(pageSize, visibleOffset);
      match target {
        case Some(position) =>
          selected := position;
          SyncSelectedId(view);
          hit := true;
        case None =>
          hit := false;
      }
    }

    /** Typing narrows the filter; the selected row stays selected while it matches. */
    method PushSearchCharacter(view: View<Row, Id>, character: char)
      requires Valid(view)
      modifies this`searchQuery, this`filteredIndices, this`selected, this`selectedId
      ensures Valid(view) && searchQuery == old(searchQuery) + [character]
      ensures selected == Restored(view, rows, filteredIndices, old(selectedId), old(selected))
    {
      searchQuery := searchQuery + [character];
      ApplyFilter(view);
    }

    method BackspaceSearch(view: View<Row, Id>)
      requires Valid(view)
      modifies this`searchQuery, this`filteredIndices, this`selected, this`selectedId
      ensures Valid(view)
      ensures searchQuery == if old(searchQuery) == "" then "" else old(searchQuery)[..|old(searchQuery)| - 1]
      ensures if old(searchQuery) == "" then selected == old(selected)
              else selected == Restored(view, rows, filteredIndices, old(selectedId), old(selected))
    {
      if searchQuery != "" {
        searchQuery := searchQuery[..|searchQuery| - 1];
        ApplyFilter(view);
      }
    }

    method ClearSearch(view: View<Row, Id>) returns (changed: bool)
      requires Valid(view)
      modifies this`searchQuery, this`filteredIndices, this`selected, this`selectedId
      ensures Valid(view) && searchQuery == ""
      ensures changed <==> old(searchQuery) != "" || isSearching
      ensures if changed then selected == Restored(view, rows, filteredIndices, old(selectedId), old(selected))
              else selected == old(selected)
    {
      if searchQuery == "" && !isSearching {
        return false;
      }
      var wanted := IdOfSelected(view);
      searchQuery := "";
      RebuildFilteredIndices(view);
      RestoreSelectedIdOrClamp(view, wanted);
      RestoredIsInRange(view, rows, filteredIndices, wanted, old(selected));
      changed := true;
    }

    method ExitSearch(view: View<Row, Id>) returns (changed: bool)
      requires Valid(view)
      modifies this`searchQuery, this`isSearching, this`filteredIndices, this`selected, this`selectedId
      ensures Valid(view) && searchQuery == "" && !isSearching
      ensures changed <==> old(searchQuery) != "" || old(isSearching)
      ensures if old(searchQuery) == "" then selected == old(selected)
              else selected == Restored(view, rows, filteredIndices, old(selectedId), old(selected))
    {
      if !isSearching && searchQuery == "" {
        return false;
      }
      var wanted := IdOfSelected(view);
      var hadQuery := searchQuery != "";
      searchQuery := "";
      isSearching := false;
      if hadQuery {
        RebuildFilteredIndices(view);
        RestoreSelectedIdOrClamp(view, wanted);
        RestoredIsInRange(view, rows, filteredIndices, wanted, old(selected));
      }
      changed := true;
    }
  }

  /** A selection whose row is gone goes to the nearest of the remaining ones. */
  lemma RestoredIsNearest<Row, Id>(view: View<Row, Id>, rows: seq<Row>, indices: seq<nat>, id: Option<Id>,
                                   selected: nat, p: nat)
    requires p < |indices|
    requires id.Some? ==> forall q :: 0 <= q < |indices| ==> !HasId(view, rows, indices, q, id.value)
    ensures var restored := Restored(view, rows, indices, id, selected);
      restored < |indices| && Distance(selected, restored) <= Distance(selected, p)
  {
    if id.Some? { PositionOfIsFirst(view, rows, indices, id.value); }
  }

  lemma RestoredIsInRange<Row, Id>(view: View<Row, Id>, rows: seq<Row>, indices: seq<nat>, id: Option<Id>,
                                   selected: nat)
    ensures var restored := Restored(view, rows, indices, id, selected);
      if indices == [] then restored == 0 else restored < |indices|
  {
    if id.Some? { PositionOfIsFirst(view, rows, indices, id.value); }
  }

  /** The selection of a list after a refilter is the row selected before, if ids are unique and the row
      still matches. */
  lemma SelectedRowSurvivesRefilter<Row, Id>(view: View<Row, Id>, rows: seq<Row>, query: string, row: nat,
                                             selected: nat)
    requires UniqueIds(view, rows) && row < |rows| && view.matches(rows[row], Trim(view.unicode, query))
    ensures var indices := Filtered(view, rows, query);
      var restored := Restored(view, rows, indices, Some(view.rowId(rows[row])), selected);
      restored < |indices| && indices[restored] == row
  {
    var indices := Filtered(view, rows, query);
    MatchingIsExact(view, rows, Trim(view.unicode, query));
    assert row in indices;
    var p :| 0 <= p < |indices| && indices[p] == row;
    RefilterKeepsTheRow(view, rows, indices, p, selected);
  }

  /** Selection and selected id after filtering by one query after the other. */
  function AfterQueries<Row, Id(==)>(view: View<Row, Id>, rows: seq<Row>, queries: seq<string>, selected: nat,
                                     id: Option<Id>): (nat, Option<Id>)
  {
    if queries == [] then (selected, id)
    else
      var (before, beforeId) := AfterQueries(view, rows, queries[..|queries| - 1], selected, id);
      var indices := Filtered(view, rows, queries[|queries| - 1]);
      var restored := Restored(view, rows, indices, beforeId, before);
      (restored, if restored < |indices| && indices[restored] < |rows|
                 then Some(view.rowId(rows[indices[restored]])) else None)
  }

  /** However the query is typed and erased: with unique ids a row that matches every query on the way is
      still selected at the end. */
  lemma {:induction false} MatchingRowStaysSelected<Row, Id>(view: View<Row, Id>, rows: seq<Row>,
                                                             queries: seq<string>, selected: nat, row: nat)
    requires UniqueIds(view, rows) && row < |rows|
    requires forall k :: 0 <= k < |queries| ==> view.matches(rows[row], Trim(view.unicode, queries[k]))
    ensures var id := Some(view.rowId(rows[row]));
      var (at, atId) := AfterQueries(view, rows, queries, selected, id);
      atId == id && (queries != [] ==>
        var indices := Filtered(view, rows, queries[|queries| - 1]);
        at < |indices| && indices[at] == row)
  {
    if queries != [] {
      var n := |queries| - 1;
      MatchingRowStaysSelected(view, rows, queries[..n], selected, row);
      var (before, _) := AfterQueries(view, rows, queries[..n], selected, Some(view.rowId(rows[row])));
      SelectedRowSurvivesRefilter(view, rows, queries[n], row, before);
    }
  }
}
