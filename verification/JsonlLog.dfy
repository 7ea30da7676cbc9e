/** What appending complete and interrupted batches does to the records a file holds. */
module JsonlLog {
  import opened Jsonl
  import opened Numbers

  ghost predicate EndsLine(bytes: seq<Byte>) {
    bytes == [] || bytes[|bytes| - 1] == NEWLINE
  }

  // ----- appending to complete lines -----

  lemma {:induction false} RecordsFromAppend(codec: Codec, line: seq<Byte>, whole: seq<Byte>, rest: seq<Byte>)
    requires whole != [] && EndsLine(whole)
    ensures RecordsFrom(codec, line, whole + rest) == RecordsFrom(codec, line, whole) + Records(codec, rest)
    decreases |whole|
  {
    var tail := whole[1..];
    assert (whole + rest)[1..] == tail + rest;
    if whole[0] == NEWLINE {
      var first := LineRecord(codec, StripCarriageReturn(line));
      if tail == [] {
        assert tail + rest == rest;
      } else {
        RecordsFromAppend(codec, [], tail, rest);
        assert first + (Records(codec, tail) + Records(codec, rest))
               == (first + Records(codec, tail)) + Records(codec, rest);
      }
    } else {
      RecordsFromAppend(codec, line + [whole[0]], tail, rest);
    }
  }

  lemma RecordsAppend(codec: Codec, whole: seq<Byte>, rest: seq<Byte>)
    requires EndsLine(whole)
    ensures Records(codec, whole + rest) == Records(codec, whole) + Records(codec, rest)
  {
    if whole == [] {
      assert whole + rest == rest;
    } else {
      RecordsFromAppend(codec, [], whole, rest);
    }
  }

  lemma RecordsOfSingleLine(codec: Codec, body: seq<Byte>, rest: seq<Byte>)
    requires SingleLine(body)
    ensures Records(codec, body + ([NEWLINE] + rest)) == LineRecord(codec, body) + Records(codec, rest)
  {
    assert body[|body| - 1] in body;
    RecordsOfLine(codec, body, rest);
  }

  // ----- batches -----

  lemma {:induction false} BatchEndsLine(codec: Codec, entries: seq<SessionEntry>)
    ensures EndsLine(BatchBytes(codec, entries))
    ensures entries != [] ==> BatchBytes(codec, entries) != []
  {
    if entries != [] {
      BatchEndsLine(codec, entries[1..]);
    }
  }

  lemma {:induction false} RecordsOfBatch(codec: Codec, entries: seq<SessionEntry>)
    requires Faithful(codec)
    ensures Records(codec, BatchBytes(codec, entries)) == entries
  {
    if entries != [] {
      var body, rest := codec.serialize(entries[0]), BatchBytes(codec, entries[1..]);
      RecordsOfBatch(codec, entries[1..]);
      assert RoundTrips(codec, entries[0]);
      RecordsOfSingleLine(codec, body, rest);
      assert body + [NEWLINE] + rest == body + ([NEWLINE] + rest);
    }
  }

  // ----- torn lines -----

  lemma FragmentIsSingleLine(codec: Codec, piece: seq<Byte>)
    requires Faithful(codec) && IsFragment(codec, piece)
    ensures SingleLine(piece)
  {
    var e: SessionEntry :| piece <= codec.serialize(e);
    assert RoundTrips(codec, e);
    forall i | 0 <= i < |piece|
      ensures piece[i] != NEWLINE && piece[i] != CARRIAGE_RETURN
    {
      assert piece[i] == codec.serialize(e)[i];
    }
  }

  lemma {:induction false} JoinIsSingleLine(codec: Codec, pieces: seq<seq<Byte>>)
    requires Faithful(codec) && Fragments(codec, pieces) && pieces != []
    ensures SingleLine(Join(pieces))
  {
    var front, last := pieces[..|pieces| - 1], pieces[|pieces| - 1];
    FragmentIsSingleLine(codec, last);
    if front != [] {
      JoinIsSingleLine(codec, front);
    }
  }

  lemma JoinSnoc(pieces: seq<seq<Byte>>, piece: seq<Byte>)
    ensures Join(pieces + [piece]) == Join(pieces) + piece
  {
    assert (pieces + [piece])[..|pieces|] == pieces;
  }

  lemma WholeEntryIsFragment(codec: Codec, entry: SessionEntry)
    requires Faithful(codec)
    ensures IsFragment(codec, codec.serialize(entry))
  {
    assert RoundTrips(codec, entry);
  }

  lemma GluedLineIsCorrupt(codec: Codec, pieces: seq<seq<Byte>>, entry: SessionEntry)
    requires Faithful(codec) && Fragments(codec, pieces) && pieces != []
    ensures SingleLine(Join(pieces) + codec.serialize(entry))
    ensures LineRecord(codec, Join(pieces) + codec.serialize(entry)) == []
  {
    var glued := pieces + [codec.serialize(entry)];
    WholeEntryIsFragment(codec, entry);
    JoinSnoc(pieces, codec.serialize(entry));
    JoinIsSingleLine(codec, glued);
    assert GlueIsCorrupt(codec, glued);
  }

  /** The entry that a retry writes right behind a torn line is unreadable there. */
  lemma GluedEntryIsLost(codec: Codec, pieces: seq<seq<Byte>>, entry: SessionEntry, rest: seq<Byte>)
    requires Faithful(codec) && Fragments(codec, pieces) && pieces != []
    ensures Records(codec, Join(pieces) + (EntryBytes(codec, entry) + rest)) == Records(codec, rest)
  {
    hide Join;
    hide Records;
    hide SingleLine;
    hide LineRecord;
    hide Faithful;
    hide Fragments;
    var body := codec.serialize(entry);
    GluedLineIsCorrupt(codec, pieces, entry);
    RecordsOfSingleLine(codec, Join(pieces) + body, rest);
    assert Join(pieces) + (body + [NEWLINE] + rest) == (Join(pieces) + body) + ([NEWLINE] + rest);
  }

  // ----- interrupted batches -----

  /** How far an interrupted write got: complete lines, and the torn beginning of the next one. */
  datatype Landing = Landing(lines: nat, piece: seq<Byte>)

  function Landed(codec: Codec, entries: seq<SessionEntry>, kept: nat): (landing: Landing)
    ensures landing.lines <= |entries|
  {
    if entries == [] then Landing(0, [])
    else
      var first := EntryBytes(codec, entries[0]);
      if kept < |first| then Landing(0, first[..kept])
      else
        var rest := Landed(codec, entries[1..], kept - |first|);
        Landing(rest.lines + 1, rest.piece)
  }

  lemma PartOfEntryIsFragment(codec: Codec, entry: SessionEntry, kept: nat)
    requires kept < |EntryBytes(codec, entry)|
    ensures kept > 0 ==> IsFragment(codec, EntryBytes(codec, entry)[..kept])
  {
    assert EntryBytes(codec, entry)[..kept] == codec.serialize(entry)[..kept];
  }

  lemma LandedNext(codec: Codec, entries: seq<SessionEntry>, kept: nat, lines: nat, piece: seq<Byte>)
    requires entries != [] && |EntryBytes(codec, entries[0])| <= kept <= |BatchBytes(codec, entries)|
    requires lines <= |entries[1..]|
    requires BatchBytes(codec, entries[1..])[..kept - |EntryBytes(codec, entries[0])|]
             == BatchBytes(codec, entries[1..][..lines]) + piece
    ensures BatchBytes(codec, entries)[..kept] == BatchBytes(codec, entries[..lines + 1]) + piece
  {
    var first, rest := EntryBytes(codec, entries[0]), BatchBytes(codec, entries[1..]);
    BatchCons(codec, entries, lines + 1);
    assert (first + rest)[..kept] == first + rest[..kept - |first|];
    hide BatchBytes;
    assert first + (BatchBytes(codec, entries[1..][..lines]) + piece)
           == (first + BatchBytes(codec, entries[1..][..lines])) + piece;
  }

  lemma {:induction false} LandedBytes(codec: Codec, entries: seq<SessionEntry>, kept: nat)
    requires kept <= |BatchBytes(codec, entries)|
    ensures var landing := Landed(codec, entries, kept);
      && BatchBytes(codec, entries)[..kept] == BatchBytes(codec, entries[..landing.lines]) + landing.piece
      && (landing.piece != [] ==> IsFragment(codec, landing.piece))
  {
    if entries != [] {
      var first, rest := EntryBytes(codec, entries[0]), BatchBytes(codec, entries[1..]);
      var landing := Landed(codec, entries, kept);
      if kept < |first| {
        PartOfEntryIsFragment(codec, entries[0], kept);
        assert BatchBytes(codec, entries[..0]) == [];
        assert (first + rest)[..kept] == first[..kept];
      } else {
        LandedBytes(codec, entries[1..], kept - |first|);
        LandedNext(codec, entries, kept, landing.lines - 1, landing.piece);
      }
    }
  }

  lemma BatchCons(codec: Codec, entries: seq<SessionEntry>, lines: nat)
    requires 0 < lines <= |entries|
    ensures BatchBytes(codec, entries[..lines])
            == EntryBytes(codec, entries[0]) + BatchBytes(codec, entries[1..][..lines - 1])
  {
    assert entries[..lines][1..] == entries[1..][..lines - 1];
  }

  lemma {:induction false} LandedWhole(codec: Codec, entries: seq<SessionEntry>)
    ensures Landed(codec, entries, |BatchBytes(codec, entries)|) == Landing(|entries|, [])
  {
    if entries != [] {
      LandedWhole(codec, entries[1..]);
    }
  }

  // ----- the shape of a file -----

  /** A file as complete lines followed by the fragments of a torn last line. */
  ghost predicate Shaped(codec: Codec, log: seq<Byte>, whole: seq<Byte>, pieces: seq<seq<Byte>>) {
    log == whole + Join(pieces) && EndsLine(whole) && Fragments(codec, pieces)
  }

  ghost function PiecesAfter(pieces: seq<seq<Byte>>, landing: Landing): seq<seq<Byte>> {
    (if landing.lines == 0 then pieces else []) + (if landing.piece == [] then [] else [landing.piece])
  }

  /** The records a write adds: all its complete lines, less the first one if the file was torn. */
  function Added(torn: bool, entries: seq<SessionEntry>, lines: nat): seq<SessionEntry>
    requires lines <= |entries|
  {
    if torn && lines > 0 then entries[1..lines] else entries[..lines]
  }

  lemma AppendPiece(codec: Codec, log: seq<Byte>, whole: seq<Byte>, pieces: seq<seq<Byte>>, piece: seq<Byte>)
    requires Shaped(codec, log, whole, pieces)
    requires piece == [] || IsFragment(codec, piece)
    ensures Shaped(codec, log + piece, whole, pieces + if piece == [] then [] else [piece])
  {
    if piece == [] {
      assert pieces + [] == pieces && log + piece == log;
    } else {
      JoinSnoc(pieces, piece);
      assert whole + (Join(pieces) + piece) == (whole + Join(pieces)) + piece;
    }
  }

  lemma RecordsBehind(codec: Codec, pieces: seq<seq<Byte>>, entries: seq<SessionEntry>)
    requires Faithful(codec) && Fragments(codec, pieces) && entries != []
    ensures Records(codec, Join(pieces) + BatchBytes(codec, entries))
            == if pieces == [] then entries else entries[1..]
  {
    if pieces == [] {
      RecordsOfBatch(codec, entries);
      assert Join(pieces) + BatchBytes(codec, entries) == BatchBytes(codec, entries);
    } else {
      GluedEntryIsLost(codec, pieces, entries[0], BatchBytes(codec, entries[1..]));
      RecordsOfBatch(codec, entries[1..]);
    }
  }

  lemma EndsLineAppend(log: seq<Byte>, written: seq<Byte>)
    requires written != [] && EndsLine(written)
    ensures EndsLine(log + written)
  {
  }

  lemma AppendBehindLines(codec: Codec, whole: seq<Byte>, tail: seq<Byte>, written: seq<Byte>)
    requires EndsLine(whole)
    ensures Records(codec, (whole + tail) + written) == Records(codec, whole) + Records(codec, tail + written)
  {
    RecordsAppend(codec, whole, tail + written);
    assert (whole + tail) + written == whole + (tail + written);
  }

  lemma AppendLines(codec: Codec, log: seq<Byte>, whole: seq<Byte>, pieces: seq<seq<Byte>>, entries: seq<SessionEntry>)
    requires Faithful(codec) && Shaped(codec, log, whole, pieces) && entries != []
    ensures EndsLine(log + BatchBytes(codec, entries))
    ensures Records(codec, log + BatchBytes(codec, entries))
            == Records(codec, whole) + if pieces == [] then entries else entries[1..]
  {
    BatchEndsLine(codec, entries);
    EndsLineAppend(log, BatchBytes(codec, entries));
    RecordsBehind(codec, pieces, entries);
    AppendBehindLines(codec, whole, Join(pieces), BatchBytes(codec, entries));
  }

  lemma CompleteFileIsShaped(codec: Codec, whole: seq<Byte>)
    requires EndsLine(whole)
    ensures Shaped(codec, whole, whole, [])
  {
    assert whole + Join([]) == whole;
  }

  lemma AppendLanding(codec: Codec, log: seq<Byte>, whole: seq<Byte>, pieces: seq<seq<Byte>>,
                      entries: seq<SessionEntry>, kept: nat) returns (whole': seq<Byte>)
    requires Faithful(codec) && Shaped(codec, log, whole, pieces)
    requires kept <= |BatchBytes(codec, entries)|
    ensures var landing := Landed(codec, entries, kept);
      && Shaped(codec, log + BatchBytes(codec, entries)[..kept], whole', PiecesAfter(pieces, landing))
      && Records(codec, whole') == Records(codec, whole) + Added(pieces != [], entries, landing.lines)
  {
    var landing := Landed(codec, entries, kept);
    var lines, piece := landing.lines, landing.piece;
    LandedBytes(codec, entries, kept);
    var written := BatchBytes(codec, entries[..lines]);
    assert log + (written + piece) == (log + written) + piece;
    if lines == 0 {
      whole' := whole;
      assert log + written == log;
      AppendPiece(codec, log, whole, pieces, piece);
    } else {
      whole' := log + written;
      AppendLines(codec, log, whole, pieces, entries[..lines]);
      CompleteFileIsShaped(codec, whole');
      AppendPiece(codec, whole', whole', [], piece);
      assert entries[..lines][1..] == entries[1..lines];
    }
  }
}
