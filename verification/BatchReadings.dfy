/** What a load sees of a batch that was written more than once. Only the first entry of a batch can be
    missed, because a retry may glue it to a torn line; the others are read with the first complete line
    that holds them. */
module BatchReadings {
  import opened Jsonl
  import opened JsonlLog
  import opened Durability
  import opened Numbers

  /** Unread: no attempt that began at a line end completed the first line.
      Read: such an attempt came before any other entry of the batch was read.
      Late: it came when the entries in front of position `behind` had been read. */
  datatype Reading = Unread | Read | Late(behind: nat)

  datatype Batch = Batch(entries: seq<SessionEntry>, reading: Reading)

  /** `exposed` counts the complete lines of the longest attempt so far. */
  predicate Fits(reading: Reading, exposed: nat) {
    match reading
    case Unread => true
    case Read => 1 <= exposed
    case Late(behind) => 2 <= behind <= exposed
  }

  /** The entries of a batch that can be read, in the order in which a load returns them. */
  function Visible(entries: seq<SessionEntry>, reading: Reading, exposed: nat): seq<SessionEntry>
    requires exposed <= |entries| && Fits(reading, exposed)
  {
    match reading
    case Unread => if exposed == 0 then [] else entries[1..exposed]
    case Read => entries[..exposed]
    case Late(behind) => entries[1..behind] + ([entries[0]] + entries[behind..exposed])
  }

  predicate Complete(batch: Batch) { batch.entries != [] && Fits(batch.reading, |batch.entries|) }

  ghost predicate AllComplete(batches: seq<Batch>) { forall i :: 0 <= i < |batches| ==> Complete(batches[i]) }

  /** The entries of finished batches as they were written, and as a load returns them. */
  ghost function Written(batches: seq<Batch>): seq<SessionEntry> {
    if batches == [] then [] else Written(batches[..|batches| - 1]) + batches[|batches| - 1].entries
  }

  ghost function Loaded(batches: seq<Batch>): seq<SessionEntry>
    requires AllComplete(batches)
  {
    if batches == [] then []
    else
      var last := batches[|batches| - 1];
      Loaded(batches[..|batches| - 1]) + Visible(last.entries, last.reading, |last.entries|)
  }

  /** The ids of first entries that cannot be read at all. */
  ghost function Lost(batches: seq<Batch>): set<string>
    requires AllComplete(batches)
  {
    if batches == [] then {}
    else
      var last := batches[|batches| - 1];
      Lost(batches[..|batches| - 1]) + if last.reading.Unread? then {last.entries[0].id} else {}
  }

  ghost predicate NoneLate(batches: seq<Batch>) { forall i :: 0 <= i < |batches| ==> !batches[i].reading.Late? }

  ghost predicate AllRead(batches: seq<Batch>) { forall i :: 0 <= i < |batches| ==> batches[i].reading.Read? }

  /** `ids` has the first entry of every batch that was not simply read. */
  ghost predicate Covers(ids: set<string>, batches: seq<Batch>)
    requires AllComplete(batches)
  {
    forall i :: 0 <= i < |batches| && !batches[i].reading.Read? ==> batches[i].entries[0].id in ids
  }

  // ----- one more attempt -----

  function ReadingAfter(reading: Reading, exposed: nat, fileTorn: bool, lines: nat): Reading {
    if reading.Unread? && !fileTorn && lines >= 1 then (if exposed >= 2 then Late(exposed) else Read) else reading
  }

  lemma SliceIds(entries: seq<SessionEntry>, i: nat, j: nat, k: nat)
    requires i <= j <= k <= |entries|
    ensures Ids(entries[i..k]) == Ids(entries[i..j]) + Ids(entries[j..k])
    ensures DistinctIds(entries) ==> DistinctIds(entries[i..k]) && Ids(entries[i..j]) !! Ids(entries[j..k])
  {
    hide Ids;
    assert entries[i..k] == entries[i..j] + entries[j..k];
    IdsAppend(entries[i..j], entries[j..k]);
    if DistinctIds(entries) {
      assert entries == entries[..i] + entries[i..] && entries[i..] == entries[i..k] + entries[k..];
      DistinctParts(entries[..i], entries[i..]);
      DistinctParts(entries[i..k], entries[k..]);
      DistinctParts(entries[i..j], entries[j..k]);
    }
  }

  lemma VisibleIds(entries: seq<SessionEntry>, reading: Reading, exposed: nat)
    requires 1 <= exposed <= |entries| && Fits(reading, exposed)
    ensures Ids(Visible(entries, reading, exposed))
            == if reading.Unread? then Ids(entries[1..exposed]) else Ids(entries[..exposed])
  {
    hide Ids;
    if reading.Late? {
      var first, middle, tail := [entries[0]], entries[1..reading.behind], entries[reading.behind..exposed];
      IdsAppend(middle, first + tail);
      IdsAppend(first, tail);
      assert entries[..exposed] == first + (middle + tail);
      IdsAppend(first, middle + tail);
      IdsAppend(middle, tail);
    }
  }

  /** Of a stretch of a batch, the part behind `exposed` is new. */
  lemma MergeStretch(seen: seq<SessionEntry>, entries: seq<SessionEntry>, from: nat, exposed: nat, lines: nat)
    requires from <= exposed <= |entries| && from <= lines <= |entries| && DistinctIds(entries)
    requires Ids(entries[from..exposed]) <= Ids(seen) && Ids(entries[exposed..]) !! Ids(seen)
    ensures Merge(seen, entries[from..lines]) == seen + entries[exposed..Max(exposed, lines)]
  {
    hide Ids;
    hide Merge;
    if lines <= exposed {
      SliceIds(entries, from, lines, exposed);
      MergeKnown(seen, entries[from..lines]);
      assert entries[exposed..exposed] == [];
    } else {
      assert entries[from..lines] == entries[from..exposed] + entries[exposed..lines];
      MergeAppend(seen, entries[from..exposed], entries[exposed..lines]);
      MergeKnown(seen, entries[from..exposed]);
      assert entries[exposed..|entries|] == entries[exposed..];
      SliceIds(entries, exposed, lines, |entries|);
      SliceIds(entries, exposed, lines, lines);
      MergeFresh(seen, entries[exposed..lines]);
    }
  }

  /** What one more attempt adds to the load, whatever was read in front of the batch. */
  lemma {:induction false} AttemptReads(front: seq<SessionEntry>, entries: seq<SessionEntry>, reading: Reading,
                                        exposed: nat, fileTorn: bool, lines: nat)
    requires DistinctIds(entries) && Ids(front) !! Ids(entries) && entries != [] && lines <= |entries|
    requires exposed <= |entries| && Fits(reading, exposed)
    ensures var reading', exposed' := ReadingAfter(reading, exposed, fileTorn, lines), Max(exposed, lines);
      && Fits(reading', exposed')
      && Merge(front + Visible(entries, reading, exposed), Added(fileTorn, entries, lines))
         == front + Visible(entries, reading', exposed')
  {
    hide Ids;
    hide Merge;
    var seen := front + Visible(entries, reading, exposed);
    if lines == 0 {
      NothingAdded(seen, Added(fileTorn, entries, lines));
    } else if exposed == 0 {
      assert seen == front;
      FreshAttempt(front, entries, if fileTorn then 1 else 0, lines);
    } else {
      VisibleIds(entries, reading, exposed);
      IdsAppend(front, Visible(entries, reading, exposed));
      SliceIds(entries, 0, exposed, |entries|);
      SliceIds(entries, 0, 1, exposed);
      assert entries[0..exposed] == entries[..exposed] && entries[0..|entries|] == entries;
      assert entries[exposed..|entries|] == entries[exposed..];
      if !reading.Unread? || fileTorn {
        StretchAttempt(front, entries, reading, exposed, fileTorn, lines);
      } else {
        LateAttempt(front, entries, exposed, lines);
      }
    }
  }

  lemma NothingAdded(seen: seq<SessionEntry>, added: seq<SessionEntry>)
    requires added == []
    ensures Merge(seen, added) == seen
  {
  }

  lemma {:induction false} FreshAttempt(front: seq<SessionEntry>, entries: seq<SessionEntry>, from: nat, lines: nat)
    requires DistinctIds(entries) && Ids(front) !! Ids(entries) && from <= lines <= |entries|
    ensures Merge(front, entries[from..lines]) == front + entries[from..lines]
  {
    hide Ids;
    assert entries[0..|entries|] == entries;
    SliceIds(entries, 0, from, |entries|);
    SliceIds(entries, from, lines, |entries|);
    SliceIds(entries, from, from, lines);
    MergeFresh(front, entries[from..lines]);
  }

  lemma VisibleGrows(entries: seq<SessionEntry>, reading: Reading, exposed: nat, exposed': nat)
    requires 1 <= exposed <= exposed' <= |entries| && Fits(reading, exposed)
    ensures Fits(reading, exposed')
    ensures Visible(entries, reading, exposed')
            == Visible(entries, reading, exposed) + entries[exposed..exposed']
  {
    match reading
    case Unread => assert entries[1..exposed] + entries[exposed..exposed'] == entries[1..exposed'];
    case Read => assert entries[..exposed] + entries[exposed..exposed'] == entries[..exposed'];
    case Late(behind) =>
      assert entries[behind..exposed] + entries[exposed..exposed'] == entries[behind..exposed'];
  }

  lemma StretchAttempt(front: seq<SessionEntry>, entries: seq<SessionEntry>, reading: Reading, exposed: nat,
                       fileTorn: bool, lines: nat)
    requires DistinctIds(entries) && 1 <= lines <= |entries| && 1 <= exposed <= |entries| && Fits(reading, exposed)
    requires var seen := front + Visible(entries, reading, exposed);
      && Ids(entries[1..exposed]) <= Ids(seen) && Ids(entries[exposed..]) !! Ids(seen)
      && (!reading.Unread? ==> Ids(entries[..exposed]) <= Ids(seen))
    requires !reading.Unread? || fileTorn
    ensures Fits(reading, Max(exposed, lines))
    ensures Merge(front + Visible(entries, reading, exposed), Added(fileTorn, entries, lines))
            == front + Visible(entries, reading, Max(exposed, lines))
  {
    hide Ids;
    hide Merge;
    hide DistinctIds;
    var seen := front + Visible(entries, reading, exposed);
    var from := if fileTorn then 1 else 0;
    MergeStretch(seen, entries, from, exposed, lines);
    var more := entries[exposed..Max(exposed, lines)];
    VisibleGrows(entries, reading, exposed, Max(exposed, lines));
    assert seen + more == front + (Visible(entries, reading, exposed) + more);
  }

  /** The first entry is read at last, behind those that were read before. */
  lemma LateAttempt(front: seq<SessionEntry>, entries: seq<SessionEntry>, exposed: nat, lines: nat)
    requires DistinctIds(entries) && 1 <= lines <= |entries| && 1 <= exposed <= |entries|
    requires var seen := front + Visible(entries, Unread, exposed);
      && Ids(entries[1..exposed]) <= Ids(seen) && Ids(entries[exposed..]) !! Ids(seen)
      && Ids(entries[0..1]) !! Ids(seen)
    requires Ids(entries[0..1]) !! Ids(entries[exposed..])
    ensures var reading' := ReadingAfter(Unread, exposed, false, lines);
      && Fits(reading', Max(exposed, lines))
      && Merge(front + Visible(entries, Unread, exposed), entries[..lines])
         == front + Visible(entries, reading', Max(exposed, lines))
  {
    hide Ids;
    hide Merge;
    var seen, first := front + Visible(entries, Unread, exposed), entries[0..1];
    SliceIds(entries, 0, 0, 1);
    MergeFresh(seen, first);
    assert entries[..lines] == first + entries[1..lines];
    MergeAppend(seen, first, entries[1..lines]);
    IdsAppend(seen, first);
    MergeStretch(seen + first, entries, 1, exposed, lines);
    var more := entries[exposed..Max(exposed, lines)];
    assert first == [entries[0]];
    assert (seen + first) + more == front + (entries[1..exposed] + ([entries[0]] + more));
    if exposed == 1 {
      assert entries[1..1] + ([entries[0]] + more) == entries[..Max(1, lines)];
    }
  }

  // ----- finished batches -----

  lemma {:induction false} LoadedIds(batches: seq<Batch>)
    requires AllComplete(batches) && DistinctIds(Written(batches))
    ensures Lost(batches) <= Ids(Written(batches))
    ensures Ids(Loaded(batches)) == Ids(Written(batches)) - Lost(batches)
  {
    hide Ids;
    hide DistinctIds;
    if batches == [] {
      NoEntries();
    } else {
      var front, last := batches[..|batches| - 1], batches[|batches| - 1];
      var n := |last.entries|;
      assert Complete(last);
      DistinctParts(Written(front), last.entries);
      LoadedIds(front);
      IdsAppend(Written(front), last.entries);
      IdsAppend(Loaded(front), Visible(last.entries, last.reading, n));
      VisibleIds(last.entries, last.reading, n);
      assert last.entries[..n] == last.entries == last.entries[0..n];
      SliceIds(last.entries, 0, 1, n);
      FirstIds(last.entries);
    }
  }

  lemma FirstIds(entries: seq<SessionEntry>)
    requires entries != []
    ensures Ids(entries[0..1]) == {entries[0].id} && entries[1..|entries|] == entries[1..]
  {
    assert entries[0..1] == [entries[0]];
    WithoutOnly(entries[0], {});
  }

  /** Without the first entries of the batches that were not simply read, nothing is moved or missing. */
  lemma {:induction false} LoadedButCovered(batches: seq<Batch>, ids: set<string>)
    requires AllComplete(batches) && Covers(ids, batches)
    ensures Without(Loaded(batches), ids) == Without(Written(batches), ids)
  {
    if batches != [] {
      var front, last := batches[..|batches| - 1], batches[|batches| - 1];
      var n := |last.entries|;
      assert Complete(last);
      LoadedButCovered(front, ids);
      WithoutAppend(Written(front), last.entries, ids);
      WithoutAppend(Loaded(front), Visible(last.entries, last.reading, n), ids);
      VisibleButFirst(last.entries, last.reading, ids);
    }
  }

  lemma VisibleButFirst(entries: seq<SessionEntry>, reading: Reading, ids: set<string>)
    requires entries != [] && Fits(reading, |entries|) && (reading.Read? || entries[0].id in ids)
    ensures Without(Visible(entries, reading, |entries|), ids) == Without(entries, ids)
  {
    hide Without;
    var n := |entries|;
    if reading.Read? {
      assert entries[..n] == entries;
    } else {
      assert entries == [entries[0]] + entries[1..] && entries[1..n] == entries[1..];
      WithoutOnly(entries[0], ids);
      WithoutAppend([entries[0]], entries[1..], ids);
      if reading.Late? {
        var k := reading.behind;
        assert entries[1..] == entries[1..k] + entries[k..n];
        WithoutAppend(entries[1..k], entries[k..n], ids);
        WithoutAppend([entries[0]], entries[k..n], ids);
        WithoutAppend(entries[1..k], [entries[0]] + entries[k..n], ids);
      }
    }
  }

  lemma {:induction false} VisibleInOrder(entries: seq<SessionEntry>, reading: Reading, lost: set<string>,
                                          gone: set<string>)
    requires DistinctIds(entries) && entries != [] && Fits(reading, |entries|) && !reading.Late?
    requires Ids(entries) !! lost && gone == if reading.Unread? then {entries[0].id} else {}
    ensures Without(entries, lost + gone) == Visible(entries, reading, |entries|)
  {
    hide Without;
    hide Ids;
    var n := |entries|;
    assert entries == entries[0..n] == entries[..n];
    if reading.Unread? {
      SliceIds(entries, 0, 1, n);
      FirstIds(entries);
      assert entries == [entries[0]] + entries[1..];
      WithoutAppend([entries[0]], entries[1..], lost + gone);
      WithoutOnly(entries[0], lost + gone);
      WithoutUnknown(entries[1..], lost + gone);
    } else {
      WithoutUnknown(entries, lost + gone);
    }
  }

  /** If no batch was read late, the load is what was written, in order, less what is lost. */
  lemma {:induction false} LoadedInOrder(batches: seq<Batch>)
    requires AllComplete(batches) && NoneLate(batches) && DistinctIds(Written(batches))
    ensures Loaded(batches) == Without(Written(batches), Lost(batches))
  {
    hide Ids;
    hide Without;
    hide Visible;
    if batches == [] {
      WithoutUnknown([], {});
    } else {
      var front, last := batches[..|batches| - 1], batches[|batches| - 1];
      var gone := if last.reading.Unread? then {last.entries[0].id} else {};
      assert Complete(last);
      DistinctParts(Written(front), last.entries);
      LoadedInOrder(front);
      LoadedIds(front);
      FirstIds(last.entries);
      SliceIds(last.entries, 0, 1, |last.entries|);
      assert last.entries == last.entries[0..|last.entries|];
      WithoutAppend(Written(front), last.entries, Lost(batches));
      WithoutMore(Written(front), Lost(front), gone);
      VisibleInOrder(last.entries, last.reading, Lost(front), gone);
    }
  }

  // ----- order -----

  /** `at` says where in `all` each element of `part` stands. */
  ghost predicate Selects(at: seq<nat>, part: seq<SessionEntry>, all: seq<SessionEntry>) {
    && |at| == |part|
    && (forall i :: 0 <= i < |at| ==> at[i] < |all| && all[at[i]] == part[i])
    && forall i, j :: 0 <= i < j < |at| ==> at[i] < at[j]
  }

  ghost predicate Subsequence(part: seq<SessionEntry>, all: seq<SessionEntry>) {
    exists at: seq<nat> :: Selects(at, part, all)
  }

  lemma SelectsSnoc(at: seq<nat>, part: seq<SessionEntry>, all: seq<SessionEntry>, entry: SessionEntry)
    requires Selects(at, part, all)
    ensures Selects(at, part, all + [entry])
    ensures Selects(at + [|all|], part + [entry], all + [entry])
  {
  }

  lemma {:induction false} WithoutSelects(entries: seq<SessionEntry>, ids: set<string>) returns (at: seq<nat>)
    ensures Selects(at, Without(entries, ids), entries)
  {
    if entries == [] {
      at := [];
    } else {
      var n := |entries| - 1;
      at := WithoutSelects(entries[..n], ids);
      SelectsSnoc(at, Without(entries[..n], ids), entries[..n], entries[n]);
      assert entries[..n] + [entries[n]] == entries;
      if entries[n].id !in ids { at := at + [n]; }
    }
  }

  /** The elements at `p` and `q` stand the other way round in `all`. */
  ghost predicate Swapped(part: seq<SessionEntry>, all: seq<SessionEntry>, p: nat, q: nat, a: nat, b: nat) {
    p < q < |part| && a < b < |all| && part[p] == all[b] && part[q] == all[a]
  }

  lemma SwappedIsNoSubsequence(part: seq<SessionEntry>, all: seq<SessionEntry>, p: nat, q: nat, a: nat, b: nat)
    requires DistinctIds(all) && Swapped(part, all, p, q, a, b)
    ensures !Subsequence(part, all)
  {
    forall at: seq<nat>
      ensures !Selects(at, part, all)
    {
      if Selects(at, part, all) {
        SamePlace(all, at[p], b);
        SamePlace(all, at[q], a);
      }
    }
  }

  lemma SamePlace(all: seq<SessionEntry>, i: nat, j: nat)
    requires DistinctIds(all) && i < |all| && j < |all| && all[i] == all[j]
    ensures i == j
  {
    assert i < j ==> IdsDiffer(all, i, j);
    assert j < i ==> IdsDiffer(all, j, i);
  }

  lemma {:induction false} LateSwaps(batches: seq<Batch>) returns (p: nat, q: nat, a: nat, b: nat)
    requires AllComplete(batches) && !NoneLate(batches)
    ensures Swapped(Loaded(batches), Written(batches), p, q, a, b)
  {
    var front, last := batches[..|batches| - 1], batches[|batches| - 1];
    assert Complete(last);
    if last.reading.Late? {
      var k := last.reading.behind;
      p, q, a, b := |Loaded(front)|, |Loaded(front)| + k - 1, |Written(front)|, |Written(front)| + 1;
      var visible := Visible(last.entries, last.reading, |last.entries|);
      assert visible[0] == last.entries[1] && visible[k - 1] == last.entries[0];
    } else {
      p, q, a, b := LateSwaps(front);
    }
  }

  lemma {:induction false} NothingLost(batches: seq<Batch>)
    requires AllComplete(batches)
    ensures AllRead(batches) <==> NoneLate(batches) && Lost(batches) == {}
  {
    if batches != [] {
      var n := |batches| - 1;
      NothingLost(batches[..n]);
      assert AllRead(batches) <==> AllRead(batches[..n]) && batches[n].reading.Read?;
      assert NoneLate(batches) <==> NoneLate(batches[..n]) && !batches[n].reading.Late?;
    }
  }

  /** The load is exact if and only if every batch was simply read, in order if and only if none was read
      late, and without loss if and only if none is unread. */
  lemma {:induction false} LoadedExactly(batches: seq<Batch>)
    requires AllComplete(batches) && DistinctIds(Written(batches))
    ensures Loaded(batches) == Written(batches) <==> AllRead(batches)
    ensures Subsequence(Loaded(batches), Written(batches)) <==> NoneLate(batches)
    ensures Ids(Loaded(batches)) == Ids(Written(batches)) <==> Lost(batches) == {}
  {
    LoadedIds(batches);
    NothingLost(batches);
    hide Ids;
    hide Loaded;
    hide Written;
    hide Lost;
    if NoneLate(batches) {
      LoadedInOrder(batches);
      var at := WithoutSelects(Written(batches), Lost(batches));
      WithoutNothing(Written(batches));
    } else {
      var p, q, a, b := LateSwaps(batches);
      SwappedIsNoSubsequence(Loaded(batches), Written(batches), p, q, a, b);
      NotSwappedWithItself(Written(batches), p, q, a, b);
    }
  }

  lemma NotSwappedWithItself(all: seq<SessionEntry>, p: nat, q: nat, a: nat, b: nat)
    requires DistinctIds(all)
    ensures !Swapped(all, all, p, q, a, b)
  {
    if p < |all| && q < |all| && a < |all| && b < |all| && all[p] == all[b] && all[q] == all[a] {
      SamePlace(all, p, b);
      SamePlace(all, q, a);
    }
  }
}
