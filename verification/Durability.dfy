/** First-wins merging of records, and lists of entries with some ids left out. */
module Durability {
  import opened Jsonl

  // ----- first-wins merging -----

  ghost predicate IdsDiffer(entries: seq<SessionEntry>, i: int, j: int)
    requires 0 <= i < j < |entries|
  {
    entries[i].id != entries[j].id
  }

  ghost predicate DistinctIds(entries: seq<SessionEntry>) {
    forall i, j :: 0 <= i < j < |entries| ==> IdsDiffer(entries, i, j)
  }

  lemma {:induction false} IdsMeaning(entries: seq<SessionEntry>, id: string)
    ensures HasId(entries, id) <==> exists i :: 0 <= i < |entries| && entries[i].id == id
  {
    if entries != [] {
      var front := entries[..|entries| - 1];
      IdsMeaning(front, id);
      if HasId(front, id) {
        var i :| 0 <= i < |front| && front[i].id == id;
        assert entries[i].id == id;
      }
      if i: nat :| i < |front| && entries[i].id == id {
        assert front[i].id == id;
      }
    }
  }

  lemma {:induction false} MergeAppend(loaded: seq<SessionEntry>, a: seq<SessionEntry>, b: seq<SessionEntry>)
    ensures Merge(loaded, a + b) == Merge(Merge(loaded, a), b)
    decreases |a|
  {
    if a == [] {
      assert a + b == b;
    } else {
      assert (a + b)[1..] == a[1..] + b;
      MergeAppend(if HasId(loaded, a[0].id) then loaded else loaded + [a[0]], a[1..], b);
    }
  }

  /** Records that are known already add nothing. */
  lemma {:induction false} MergeKnown(loaded: seq<SessionEntry>, records: seq<SessionEntry>)
    requires Ids(records) <= Ids(loaded)
    ensures Merge(loaded, records) == loaded
    decreases |records|
  {
    if records != [] {
      IdsCons(records);
      MergeKnown(loaded, records[1..]);
    }
  }

  /** Records with new and distinct ids are all added. */
  lemma {:induction false} MergeFresh(loaded: seq<SessionEntry>, records: seq<SessionEntry>)
    requires DistinctIds(records) && Ids(records) !! Ids(loaded)
    ensures Merge(loaded, records) == loaded + records
    decreases |records|
  {
    if records != [] {
      var first, rest := records[0], records[1..];
      IdsCons(records);
      DistinctCons(records);
      IdsSnoc(loaded, first);
      MergeFresh(loaded + [first], rest);
      assert records == [first] + rest;
      assert (loaded + [first]) + rest == loaded + ([first] + rest);
    }
  }

  lemma {:induction false} IdsAppend(a: seq<SessionEntry>, b: seq<SessionEntry>)
    ensures Ids(a + b) == Ids(a) + Ids(b)
    decreases |b|
  {
    if b == [] {
      assert a + b == a;
    } else {
      var front, last := b[..|b| - 1], b[|b| - 1];
      assert a + b == (a + front) + [last];
      IdsSnoc(a + front, last);
      IdsAppend(a, front);
    }
  }

  lemma IdsCons(entries: seq<SessionEntry>)
    requires entries != []
    ensures Ids(entries) == {entries[0].id} + Ids(entries[1..])
  {
    assert entries == [entries[0]] + entries[1..];
    IdsAppend([entries[0]], entries[1..]);
    IdsSnoc([], entries[0]);
    assert [] + [entries[0]] == [entries[0]];
  }

  lemma DistinctCons(entries: seq<SessionEntry>)
    requires DistinctIds(entries) && entries != []
    ensures DistinctIds(entries[1..]) && entries[0].id !in Ids(entries[1..])
  {
    assert [entries[0]] + entries[1..] == entries;
    DistinctParts([entries[0]], entries[1..]);
    IdsSnoc([], entries[0]);
    assert [] + [entries[0]] == [entries[0]];
  }

  /** The parts of a list without repetition repeat nothing, and share nothing. */
  lemma DistinctParts(a: seq<SessionEntry>, b: seq<SessionEntry>)
    requires DistinctIds(a + b)
    ensures DistinctIds(a) && DistinctIds(b) && Ids(a) !! Ids(b)
  {
    hide Ids;
    var all := a + b;
    forall i, j | 0 <= i < j < |a|
      ensures IdsDiffer(a, i, j)
    {
      assert IdsDiffer(all, i, j);
    }
    forall i, j | 0 <= i < j < |b|
      ensures IdsDiffer(b, i, j)
    {
      assert IdsDiffer(all, |a| + i, |a| + j);
    }
    forall id | id in Ids(a)
      ensures id !in Ids(b)
    {
      IdsMeaning(a, id);
      IdsMeaning(b, id);
      assert HasId(a, id);
      var i :| 0 <= i < |a| && a[i].id == id;
      forall j | 0 <= j < |b|
        ensures b[j].id != id
      {
        assert IdsDiffer(all, i, |a| + j);
      }
      assert HasId(b, id) <==> id in Ids(b);
    }
  }

  // ----- leaving out some ids -----

  function Without(entries: seq<SessionEntry>, ids: set<string>): seq<SessionEntry> {
    if entries == [] then []
    else
      var last := entries[|entries| - 1];
      Without(entries[..|entries| - 1], ids) + if last.id in ids then [] else [last]
  }

  lemma WithoutSnoc(entries: seq<SessionEntry>, entry: SessionEntry, ids: set<string>)
    ensures Without(entries + [entry], ids) == Without(entries, ids) + if entry.id in ids then [] else [entry]
  {
    assert (entries + [entry])[..|entries|] == entries;
  }

  lemma {:induction false} WithoutAppend(a: seq<SessionEntry>, b: seq<SessionEntry>, ids: set<string>)
    ensures Without(a + b, ids) == Without(a, ids) + Without(b, ids)
    decreases |b|
  {
    if b == [] {
      assert a + b == a;
    } else {
      var front, last := b[..|b| - 1], b[|b| - 1];
      assert a + b == (a + front) + [last];
      WithoutSnoc(a + front, last, ids);
      WithoutAppend(a, front, ids);
      assert b == front + [last];
      WithoutSnoc(front, last, ids);
    }
  }

  lemma {:induction false} WithoutNothing(entries: seq<SessionEntry>)
    ensures Without(entries, {}) == entries
  {
    if entries != [] {
      WithoutNothing(entries[..|entries| - 1]);
    }
  }

  lemma {:induction false} WithoutIds(entries: seq<SessionEntry>, ids: set<string>)
    ensures Ids(Without(entries, ids)) == Ids(entries) - ids
  {
    if entries != [] {
      var front, last := entries[..|entries| - 1], entries[|entries| - 1];
      WithoutIds(front, ids);
      IdsSnoc(Without(front, ids), last);
      assert Without(front, ids) + [] == Without(front, ids);
    }
  }

  lemma {:induction false} WithoutUnknown(entries: seq<SessionEntry>, ids: set<string>)
    requires Ids(entries) !! ids
    ensures Without(entries, ids) == entries
  {
    if entries != [] { WithoutUnknown(entries[..|entries| - 1], ids); }
  }

  /** Ids that do not occur make no difference. */
  lemma {:induction false} WithoutMore(entries: seq<SessionEntry>, ids: set<string>, more: set<string>)
    requires Ids(entries) !! more
    ensures Without(entries, ids + more) == Without(entries, ids)
  {
    if entries != [] { WithoutMore(entries[..|entries| - 1], ids, more); }
  }

  lemma WithoutOnly(entry: SessionEntry, ids: set<string>)
    ensures Without([entry], ids) == if entry.id in ids then [] else [entry]
    ensures Ids([entry]) == {entry.id}
  {
    WithoutSnoc([], entry, ids);
    IdsSnoc([], entry);
    assert [] + [entry] == [entry];
  }

  lemma WithoutPrefix(shorter: seq<SessionEntry>, longer: seq<SessionEntry>, ids: set<string>)
    requires shorter <= longer
    ensures Without(shorter, ids) <= Without(longer, ids)
  {
    assert longer == shorter + longer[|shorter|..];
    WithoutAppend(shorter, longer[|shorter|..], ids);
  }
}
