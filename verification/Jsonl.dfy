/** The append-only JSONL session log: what a batch write puts into the file, and what a scan reads back.

    The JSON text format is abstract: a codec serializes an entry to bytes and parses one line. */
module Jsonl {
  import opened Numbers
  import opened Wrappers

  const NEWLINE: Byte := 10
  const CARRIAGE_RETURN: Byte := 13

  datatype SessionEntry = SessionEntry(id: string, parentId: Option<string>, payload: string)

  datatype Codec = Codec(serialize: SessionEntry -> seq<Byte>, parse: seq<Byte> -> Option<SessionEntry>)

  datatype StoreError = IoError | SerializeEntry(entryId: string) | DanglingParent(parentId: string)

  // ----- what the codec is trusted for -----

  ghost predicate SingleLine(bytes: seq<Byte>) {
    bytes != [] && NEWLINE !in bytes && CARRIAGE_RETURN !in bytes
  }

  /** A nonempty beginning of some serialized entry: what an interrupted write leaves behind. */
  ghost predicate IsFragment(codec: Codec, piece: seq<Byte>) {
    piece != [] && exists e: SessionEntry :: piece <= codec.serialize(e)
  }

  ghost predicate Fragments(codec: Codec, pieces: seq<seq<Byte>>) {
    forall i :: 0 <= i < |pieces| ==> IsFragment(codec, pieces[i])
  }

  function Join(pieces: seq<seq<Byte>>): seq<Byte> {
    if pieces == [] then [] else Join(pieces[..|pieces| - 1]) + pieces[|pieces| - 1]
  }

  ghost predicate RoundTrips(codec: Codec, entry: SessionEntry) {
    SingleLine(codec.serialize(entry)) && codec.parse(codec.serialize(entry)) == Some(entry)
  }

  ghost predicate GlueIsCorrupt(codec: Codec, pieces: seq<seq<Byte>>) {
    |pieces| >= 2 && Fragments(codec, pieces) ==> codec.parse(Join(pieces)) == None
  }

  /** Entries are written on one line, read back as they were, and fragments glued together by a
      retry never read as an entry. */
  ghost predicate Faithful(codec: Codec) {
    && (forall entry :: RoundTrips(codec, entry))
    && (forall pieces :: GlueIsCorrupt(codec, pieces))
  }

  // ----- reading: the meaning of a file -----

  /** Up to and including the first newline, as `read_until` reads. */
  function LineLength(bytes: seq<Byte>): (n: nat)
    ensures n <= |bytes| && (bytes != [] ==> n > 0)
  {
    if bytes == [] then 0
    else if bytes[0] == NEWLINE then 1
    else 1 + LineLength(bytes[1..])
  }

  lemma {:induction false} LineLengthMeaning(bytes: seq<Byte>)
    ensures var n := LineLength(bytes);
      && (n < |bytes| ==> bytes[n - 1] == NEWLINE)
      && (forall i :: 0 <= i < n - 1 ==> bytes[i] != NEWLINE)
  {
    if bytes != [] && bytes[0] != NEWLINE {
      LineLengthMeaning(bytes[1..]);
      var n := LineLength(bytes);
      assert n < |bytes| ==> bytes[n - 1] == bytes[1..][n - 2];
      forall i | 0 <= i < n - 1
        ensures bytes[i] != NEWLINE
      {
        assert i > 0 ==> bytes[i] == bytes[1..][i - 1];
      }
    }
  }

  function StripCarriageReturn(line: seq<Byte>): seq<Byte> {
    if line != [] && line[|line| - 1] == CARRIAGE_RETURN then line[..|line| - 1] else line
  }

  /** A line as read, without its `\n` or `\r\n`. */
  function StripLine(line: seq<Byte>): seq<Byte> {
    if line != [] && line[|line| - 1] == NEWLINE then StripCarriageReturn(line[..|line| - 1]) else line
  }

  function LineRecord(codec: Codec, line: seq<Byte>): seq<SessionEntry> {
    if line == [] then []
    else match codec.parse(line)
      case Some(entry) => [entry]
      case None => []
  }

  /** Every entry a line of the file reads as, repetitions included, when `line` has been read of the
      first line and `bytes` is still to come. */
  function RecordsFrom(codec: Codec, line: seq<Byte>, bytes: seq<Byte>): seq<SessionEntry>
    decreases |bytes|
  {
    if bytes == [] then LineRecord(codec, line)
    else if bytes[0] == NEWLINE then
      LineRecord(codec, StripCarriageReturn(line)) + RecordsFrom(codec, [], bytes[1..])
    else RecordsFrom(codec, line + [bytes[0]], bytes[1..])
  }

  function Records(codec: Codec, bytes: seq<Byte>): seq<SessionEntry> {
    RecordsFrom(codec, [], bytes)
  }

  lemma {:induction false} RecordsInLine(codec: Codec, line: seq<Byte>, body: seq<Byte>, rest: seq<Byte>)
    requires NEWLINE !in body
    ensures RecordsFrom(codec, line, body + rest) == RecordsFrom(codec, line + body, rest)
    decreases |body|
  {
    if body == [] {
      assert body + rest == rest && line + body == line;
    } else {
      assert (body + rest)[1..] == body[1..] + rest;
      assert line + [body[0]] + body[1..] == line + body;
      RecordsInLine(codec, line + [body[0]], body[1..], rest);
    }
  }

  lemma RecordsOfLine(codec: Codec, body: seq<Byte>, rest: seq<Byte>)
    requires NEWLINE !in body
    ensures Records(codec, body + ([NEWLINE] + rest))
            == LineRecord(codec, StripCarriageReturn(body)) + Records(codec, rest)
  {
    RecordsInLine(codec, [], body, [NEWLINE] + rest);
    assert [] + body == body;
    assert ([NEWLINE] + rest)[1..] == rest;
  }

  /** How lines end: at a line feed, or at a carriage return and a line feed; the last line may not end at
      all. Empty lines and lines that do not parse read as nothing. */
  lemma LineEndings(codec: Codec, body: seq<Byte>, rest: seq<Byte>)
    requires 10 !in body
    ensures var entry := if body == [] then None else codec.parse(body);
      var read := if entry.Some? then [entry.value] else [];
      && Records(codec, body + ([13, 10] + rest)) == read + Records(codec, rest)
      && (body == [] || body[|body| - 1] != 13 ==> Records(codec, body + ([10] + rest)) == read + Records(codec, rest))
      && Records(codec, body) == read
  {
    var line := body + [CARRIAGE_RETURN];
    RecordsOfLine(codec, line, rest);
    assert line + ([NEWLINE] + rest) == body + ([13, 10] + rest);
    assert line[..|body|] == body;
    RecordsOfLine(codec, body, rest);
    RecordsInLine(codec, [], body, []);
    assert body + [] == body && [] + body == body;
  }

  function Ids(entries: seq<SessionEntry>): set<string> {
    if entries == [] then {} else Ids(entries[..|entries| - 1]) + {entries[|entries| - 1].id}
  }

  predicate HasId(entries: seq<SessionEntry>, id: string) {
    id in Ids(entries)
  }

  lemma IdsSnoc(entries: seq<SessionEntry>, entry: SessionEntry)
    ensures Ids(entries + [entry]) == Ids(entries) + {entry.id}
  {
    assert (entries + [entry])[..|entries|] == entries;
  }

  /** Adds the records whose id is new. */
  function Merge(loaded: seq<SessionEntry>, records: seq<SessionEntry>): seq<SessionEntry>
    decreases |records|
  {
    if records == [] then loaded
    else Merge(if HasId(loaded, records[0].id) then loaded else loaded + [records[0]], records[1..])
  }

  /** What a scan of the file yields: the first record of every id, in file order. */
  function Scan(codec: Codec, bytes: seq<Byte>): seq<SessionEntry> {
    Merge([], Records(codec, bytes))
  }

  lemma MergeOne(loaded: seq<SessionEntry>, entry: SessionEntry, records: seq<SessionEntry>)
    ensures Merge(loaded, [entry] + records)
            == Merge(if HasId(loaded, entry.id) then loaded else loaded + [entry], records)
  {
    assert ([entry] + records)[1..] == records;
  }

  lemma SplitAtNewline(bytes: seq<Byte>, n: nat)
    requires 0 < n <= |bytes| && bytes[n - 1] == NEWLINE
    ensures bytes == bytes[..n - 1] + ([NEWLINE] + bytes[n..])
    ensures StripLine(bytes[..n]) == StripCarriageReturn(bytes[..n - 1])
  {
    assert bytes[..n][..n - 1] == bytes[..n - 1];
  }

  lemma RecordsOfUnfinishedLine(codec: Codec, line: seq<Byte>)
    requires NEWLINE !in line
    ensures Records(codec, line) == LineRecord(codec, line)
  {
    RecordsInLine(codec, [], line, []);
    assert line + [] == line && [] + line == line;
  }

  /** What one `read_until` contributes. */
  lemma RecordsOfRead(codec: Codec, reader: seq<Byte>, n: nat)
    requires reader != [] && n == LineLength(reader)
    ensures Records(codec, reader) == LineRecord(codec, StripLine(reader[..n])) + Records(codec, reader[n..])
    ensures reader[n - 1] != NEWLINE ==> reader[n..] == []
  {
    LineLengthMeaning(reader);
    if reader[n - 1] == NEWLINE {
      SplitAtNewline(reader, n);
      RecordsOfLine(codec, reader[..n - 1], reader[n..]);
    } else {
      assert n == |reader| && reader[..n] == reader && reader[n..] == [];
      RecordsOfUnfinishedLine(codec, reader);
    }
  }

  // ----- the reading loop -----

  /** A file may not open, and each call that reads a line may fail. */
  datatype File = Unopenable | Opened(bytes: seq<Byte>, readFails: nat -> bool)

  /** What becomes of the k-th entry handed to the visitor. */
  type Visitor = nat -> Option<StoreError>

  /** How many calls it takes to read the file: one for each line, and one that finds the end unless the
      last line is unfinished and does not parse. */
  function ReadCalls(codec: Codec, bytes: seq<Byte>): (calls: nat)
    ensures calls >= 1
    decreases |bytes|
  {
    var n := LineLength(bytes);
    if n == 0 || (bytes[n - 1] != NEWLINE && LineRecord(codec, bytes[..n]) == []) then 1
    else 1 + ReadCalls(codec, bytes[n..])
  }

  ghost predicate Readable(codec: Codec, file: File) {
    file.Opened? && forall k: nat :: k < ReadCalls(codec, file.bytes) ==> !file.readFails(k)
  }

  ghost predicate Welcome(visitor: Visitor, entries: seq<SessionEntry>) {
    forall k: nat :: k < |entries| ==> visitor(k).None?
  }

  /** A scan only ever grows, and grows by records. */
  lemma {:induction false} MergeExtends(loaded: seq<SessionEntry>, records: seq<SessionEntry>)
    ensures loaded <= Merge(loaded, records)
    ensures |loaded| < |Merge(loaded, records)| ==> Merge(loaded, records)[|loaded|] in records
    decreases |records|
  {
    if records != [] {
      var first, rest := records[0], records[1..];
      if HasId(loaded, first.id) {
        MergeExtends(loaded, rest);
      } else {
        MergeExtends(loaded + [first], rest);
        assert (loaded + [first])[|loaded|] == first;
      }
    }
  }

  lemma NoEntries()
    ensures Ids([]) == {}
  {
  }

  /** How the visitor's next answer decides. */
  lemma WelcomeSoFar(visitor: Visitor, visited: seq<SessionEntry>, all: seq<SessionEntry>)
    ensures visited == [] ==> Welcome(visitor, visited)
    ensures Welcome(visitor, visited) && visitor(|visited|).None? ==>
      forall entry :: Welcome(visitor, visited + [entry])
    ensures |visited| < |all| && visitor(|visited|).Some? ==> !Welcome(visitor, all)
  {
  }

  /** What reading one line does to the rest of the scan. */
  lemma LineRead(codec: Codec, visited: seq<SessionEntry>, reader: seq<Byte>, line: seq<Byte>)
    requires LineLength(reader) > 0 && line == StripLine(reader[..LineLength(reader)])
    ensures var n := LineLength(reader);
      var unfinished := reader[n - 1] != NEWLINE;
      var rest := Records(codec, reader[n..]);
      && Records(codec, reader) == LineRecord(codec, line) + rest
      && (LineRecord(codec, line) == [] ==> Records(codec, reader) == rest)
      && (unfinished && LineRecord(codec, line) == [] ==>
            Merge(visited, rest) == visited && ReadCalls(codec, reader) == 1)
      && (!unfinished || LineRecord(codec, line) != [] ==>
            ReadCalls(codec, reader) == 1 + ReadCalls(codec, reader[n..]))
  {
    var n := LineLength(reader);
    RecordsOfRead(codec, reader, n);
    assert LineRecord(codec, line) == [] ==> LineRecord(codec, line) + Records(codec, reader[n..])
                                             == Records(codec, reader[n..]);
    hide RecordsFrom;
  }

  /** `calls` lines have been read and their entries visited; `reader` is still to come. */
  ghost predicate InScan(codec: Codec, file: File, visitor: Visitor, reader: seq<Byte>, calls: nat,
                         visited: seq<SessionEntry>)
    requires file.Opened?
  {
    && Merge(visited, Records(codec, reader)) == Scan(codec, file.bytes)
    && Welcome(visitor, visited)
    && calls + ReadCalls(codec, reader) == ReadCalls(codec, file.bytes)
    && forall k: nat :: k < calls ==> !file.readFails(k)
  }

  ghost predicate Scanned(codec: Codec, file: File, visitor: Visitor, visited: seq<SessionEntry>)
    requires file.Opened?
  {
    visited == Scan(codec, file.bytes) && Readable(codec, file) && Welcome(visitor, visited)
  }

  lemma UnopenableIsUnreadable(codec: Codec, file: File)
    requires file.Unopenable?
    ensures !Readable(codec, file)
  {
  }

  lemma ScanStarts(codec: Codec, file: File, visitor: Visitor)
    requires file.Opened?
    ensures InScan(codec, file, visitor, file.bytes, 0, [])
  {
  }

  lemma ReadFails(codec: Codec, file: File, visitor: Visitor, reader: seq<Byte>, calls: nat,
                  visited: seq<SessionEntry>)
    requires file.Opened? && InScan(codec, file, visitor, reader, calls, visited) && file.readFails(calls)
    ensures visited <= Scan(codec, file.bytes) && !Readable(codec, file)
  {
    hide Records;
    MergeExtends(visited, Records(codec, reader));
  }

  lemma NothingLeft(codec: Codec, file: File, visitor: Visitor, reader: seq<Byte>, calls: nat,
                    visited: seq<SessionEntry>)
    requires file.Opened? && InScan(codec, file, visitor, reader, calls, visited)
    requires LineLength(reader) == 0 && !file.readFails(calls)
    ensures Scanned(codec, file, visitor, visited)
  {
    assert Records(codec, reader) == [] && ReadCalls(codec, reader) == 1;
  }

  lemma LineStep(codec: Codec, file: File, visitor: Visitor, reader: seq<Byte>, calls: nat,
                 visited: seq<SessionEntry>, line: seq<Byte>)
    requires file.Opened? && InScan(codec, file, visitor, reader, calls, visited) && !file.readFails(calls)
    requires LineLength(reader) > 0 && line == StripLine(reader[..LineLength(reader)])
    ensures var n := LineLength(reader);
      if LineRecord(codec, line) == [] then
        if reader[n - 1] == NEWLINE then InScan(codec, file, visitor, reader[n..], calls + 1, visited)
        else Scanned(codec, file, visitor, visited)
      else
        var entry := LineRecord(codec, line)[0];
        if HasId(visited, entry.id) then InScan(codec, file, visitor, reader[n..], calls + 1, visited)
        else
          && visited < Scan(codec, file.bytes)
          && if visitor(|visited|).None? then InScan(codec, file, visitor, reader[n..], calls + 1, visited + [entry])
             else !Welcome(visitor, Scan(codec, file.bytes))
  {
    hide Records;
    hide ReadCalls;
    hide Merge;
    hide StripLine;
    hide HasId;
    LineRead(codec, visited, reader, line);
    var n := LineLength(reader);
    var rest := Records(codec, reader[n..]);
    WelcomeSoFar(visitor, visited, Scan(codec, file.bytes));
    if LineRecord(codec, line) != [] {
      var entry := LineRecord(codec, line)[0];
      MergeOne(visited, entry, rest);
      MergeExtends(visited + [entry], rest);
    }
  }

  method ScanEntries(codec: Codec, file: File, visitor: Visitor)
    returns (visited: seq<SessionEntry>, result: Result<set<string>, StoreError>)
    ensures file.Opened? ==> visited <= Scan(codec, file.bytes)
    ensures result.Ok? <==> Readable(codec, file) && Welcome(visitor, Scan(codec, file.bytes))
    ensures result.Ok? ==> visited == Scan(codec, file.bytes) && result.value == Ids(visited)
    ensures result.Err? ==>
      || (!Readable(codec, file) && result.error == IoError)
      || (file.Opened? && visited < Scan(codec, file.bytes) && visitor(|visited|) == Some(result.error))
  {
    hide InScan;
    hide Scan;
    hide LineLength;
    hide Ids;
    hide Readable;
    hide Welcome;
    visited := [];
    if file.Unopenable? {
      assert !Readable(codec, file) by { UnopenableIsUnreadable(codec, file); }
      return visited, Err(IoError);
    }
    NoEntries();
    ScanStarts(codec, file, visitor);
    var seenIds: set<string> := {};
    var reader, calls := file.bytes, 0;
    while true
      invariant InScan(codec, file, visitor, reader, calls, visited) && seenIds == Ids(visited)
      decreases |reader|
    {
      if file.readFails(calls) {
        ReadFails(codec, file, visitor, reader, calls, visited);
        return visited, Err(IoError);
      }
      var bytesRead := LineLength(reader);
      if bytesRead == 0 {
        NothingLeft(codec, file, visitor, reader, calls, visited);
        break;
      }
      var line := reader[..bytesRead];
      var hasNewline := line[|line| - 1] == NEWLINE;
      if hasNewline {
        line := line[..|line| - 1];
        if line != [] && line[|line| - 1] == CARRIAGE_RETURN {
          line := line[..|line| - 1];
        }
      }
      LineStep(codec, file, visitor, reader, calls, visited, line);
      reader, calls := reader[bytesRead..], calls + 1;
      if line != [] {
        match codec.parse(line) {
          case Some(entry) =>
            if entry.id !in seenIds {
              var answer := visitor(|visited|);
              if answer.Some? { return visited, Err(answer.value); }
              IdsSnoc(visited, entry);
              visited, seenIds := visited + [entry], seenIds + {entry.id};
            }
          case None =>
            if !hasNewline { break; }
        }
      }
    }
    result := Ok(seenIds);
  }

  /** The first entry whose parent is not in the file makes the load fail. */
  ghost predicate FirstDangling(loaded: seq<SessionEntry>, i: nat) {
    && i < |loaded|
    && loaded[i].parentId.Some? && !HasId(loaded, loaded[i].parentId.value)
    && forall j :: 0 <= j < i ==> Linked(loaded, j)
  }

  ghost predicate Linked(loaded: seq<SessionEntry>, j: nat)
    requires j < |loaded|
  {
    loaded[j].parentId.Some? ==> HasId(loaded, loaded[j].parentId.value)
  }

  method Load(codec: Codec, file: File) returns (result: Result<seq<SessionEntry>, StoreError>)
    ensures result.Ok? ==>
      && Readable(codec, file) && result.value == Scan(codec, file.bytes)
      && forall j :: 0 <= j < |result.value| ==> Linked(result.value, j)
    ensures result.Err? && Readable(codec, file) ==>
      exists i: nat :: FirstDangling(Scan(codec, file.bytes), i)
                  && result.error == DanglingParent(Scan(codec, file.bytes)[i].parentId.value)
    ensures !Readable(codec, file) ==> result == Err(IoError)
  {
    var loaded, scanned := ScanEntries(codec, file, _ => None);
    if scanned.Err? { return Err(scanned.error); }
    var seenIds := scanned.value;
    var i := 0;
    while i < |loaded|
      invariant 0 <= i <= |loaded|
      invariant forall j :: 0 <= j < i ==> Linked(loaded, j)
    {
      if loaded[i].parentId.Some? && loaded[i].parentId.value !in seenIds {
        assert FirstDangling(loaded, i);
        return Err(DanglingParent(loaded[i].parentId.value));
      }
      i := i + 1;
    }
    result := Ok(loaded);
  }

  // ----- writing -----

  function EntryBytes(codec: Codec, entry: SessionEntry): seq<Byte> {
    codec.serialize(entry) + [NEWLINE]
  }

  function BatchBytes(codec: Codec, entries: seq<SessionEntry>): seq<Byte> {
    if entries == [] then [] else EntryBytes(codec, entries[0]) + BatchBytes(codec, entries[1..])
  }
}
