/** The trust placed in the codec is satisfiable: an encoding with an opening mark that occurs nowhere
    else, as an opening brace at the start of a JSON line does, is faithful. */
module JsonlCodec {
  import opened Wrappers
  import opened Jsonl
  import opened Numbers

  const OPEN: Byte := 123

  function Unary(n: nat): seq<Byte> {
    if n == 0 then [2] else [1] + Unary(n - 1)
  }

  function Text(s: string): seq<Byte> {
    if s == [] then [3] else Unary(s[0] as int) + Text(s[1..])
  }

  function Parent(parentId: Option<string>): seq<Byte> {
    match parentId
    case None => [4]
    case Some(id) => [5] + Text(id)
  }

  function Fields(entry: SessionEntry): seq<Byte> {
    Text(entry.id) + (Parent(entry.parentId) + Text(entry.payload))
  }

  function Serialize(entry: SessionEntry): seq<Byte> {
    [OPEN] + Fields(entry)
  }

  ghost function Parse(line: seq<Byte>): Option<SessionEntry> {
    if exists entry: SessionEntry :: Serialize(entry) == line
    then var entry: SessionEntry :| Serialize(entry) == line; Some(entry)
    else None
  }

  ghost function Example(): Codec {
    Codec(entry => Serialize(entry), line => Parse(line))
  }

  // ----- the encoding is injective -----

  lemma {:induction false} UnaryReads(n: nat, m: nat, x: seq<Byte>, y: seq<Byte>)
    requires Unary(n) + x == Unary(m) + y
    ensures n == m && x == y
  {
    var a, b := Unary(n) + x, Unary(m) + y;
    assert a[0] == Unary(n)[0] && b[0] == Unary(m)[0];
    if n > 0 {
      assert a[1..] == Unary(n - 1) + x && b[1..] == Unary(m - 1) + y;
      UnaryReads(n - 1, m - 1, x, y);
    } else {
      assert a[1..] == x && b[1..] == y;
    }
  }

  lemma UnaryStarts(n: nat)
    ensures Unary(n) != [] && Unary(n)[0] != 3
  {
  }

  lemma {:induction false} TextReads(s: string, t: string, x: seq<Byte>, y: seq<Byte>)
    requires Text(s) + x == Text(t) + y
    ensures s == t && x == y
  {
    var a, b := Text(s) + x, Text(t) + y;
    assert a[0] == Text(s)[0] && b[0] == Text(t)[0];
    if s != [] { UnaryStarts(s[0] as int); }
    if t != [] { UnaryStarts(t[0] as int); }
    if s == [] {
      assert a[1..] == x && b[1..] == y;
    } else {
      assert a == Unary(s[0] as int) + (Text(s[1..]) + x) && b == Unary(t[0] as int) + (Text(t[1..]) + y);
      UnaryReads(s[0] as int, t[0] as int, Text(s[1..]) + x, Text(t[1..]) + y);
      TextReads(s[1..], t[1..], x, y);
    }
  }

  lemma HeadAndTail(head: Byte, tail: seq<Byte>, x: seq<Byte>)
    ensures var all := [head] + tail + x;
      all[0] == head && all[1..] == tail + x
  {
  }

  lemma ParentReads(p: Option<string>, q: Option<string>, x: seq<Byte>, y: seq<Byte>)
    requires Parent(p) + x == Parent(q) + y
    ensures p == q && x == y
  {
    hide Text;
    match p {
      case Some(s) => HeadAndTail(5, Text(s), x);
      case None => assert ([4] + x)[1..] == x;
    }
    match q {
      case Some(t) => HeadAndTail(5, Text(t), y);
      case None => assert ([4] + y)[1..] == y;
    }
    if p.Some? && q.Some? { TextReads(p.value, q.value, x, y); }
  }

  lemma SerializeInjective(a: SessionEntry, b: SessionEntry)
    requires Serialize(a) == Serialize(b)
    ensures a == b
  {
    assert Serialize(a)[1..] == Fields(a) && Serialize(b)[1..] == Fields(b);
    TextReads(a.id, b.id, Parent(a.parentId) + Text(a.payload), Parent(b.parentId) + Text(b.payload));
    ParentReads(a.parentId, b.parentId, Text(a.payload), Text(b.payload));
    assert Text(a.payload) + [] == Text(a.payload) && Text(b.payload) + [] == Text(b.payload);
    TextReads(a.payload, b.payload, [], []);
  }

  // ----- the mark opens and does not recur -----

  ghost predicate Plain(bytes: seq<Byte>) {
    forall i :: 0 <= i < |bytes| ==> bytes[i] <= 5
  }

  lemma {:induction false} UnaryIsPlain(n: nat)
    ensures Plain(Unary(n))
  {
    if n > 0 { UnaryIsPlain(n - 1); }
  }

  lemma {:induction false} TextIsPlain(s: string)
    ensures Plain(Text(s))
  {
    if s != [] {
      UnaryIsPlain(s[0] as int);
      TextIsPlain(s[1..]);
    }
  }

  lemma FieldsArePlain(entry: SessionEntry)
    ensures Plain(Fields(entry))
  {
    TextIsPlain(entry.id);
    TextIsPlain(entry.payload);
    if entry.parentId.Some? { TextIsPlain(entry.parentId.value); }
  }

  lemma MarkIsFirst(entry: SessionEntry, at: nat)
    requires 0 < at < |Serialize(entry)|
    ensures Serialize(entry)[at] != OPEN
  {
    hide Fields;
    FieldsArePlain(entry);
    assert Serialize(entry)[at] == Fields(entry)[at - 1];
  }

  lemma FragmentStartsWithMark(piece: seq<Byte>)
    requires IsFragment(Example(), piece)
    ensures piece[0] == OPEN
  {
    hide Fields;
    var e: SessionEntry :| piece <= Example().serialize(e);
  }

  /** The last of two or more fragments opens behind the others. */
  lemma MarkInside(pieces: seq<seq<Byte>>) returns (mark: nat)
    requires |pieces| >= 2 && Fragments(Example(), pieces)
    ensures 0 < mark < |Join(pieces)| && Join(pieces)[mark] == OPEN
  {
    hide Serialize;
    var front, last := pieces[..|pieces| - 1], pieces[|pieces| - 1];
    assert IsFragment(Example(), last) && IsFragment(Example(), pieces[|pieces| - 2]);
    FragmentStartsWithMark(last);
    assert Join(front) == Join(front[..|front| - 1]) + pieces[|pieces| - 2];
    mark := |Join(front)|;
  }

  lemma GluedFragmentsDoNotParse(pieces: seq<seq<Byte>>)
    requires |pieces| >= 2 && Fragments(Example(), pieces)
    ensures Parse(Join(pieces)) == None
  {
    hide Fields;
    hide Plain;
    var mark := MarkInside(pieces);
    forall entry: SessionEntry
      ensures Serialize(entry) != Join(pieces)
    {
      if Serialize(entry) == Join(pieces) { MarkIsFirst(entry, mark); }
    }
  }

  lemma FaithfulCodecExists()
    ensures Faithful(Example())
  {
    forall entry: SessionEntry
      ensures RoundTrips(Example(), entry)
    {
      FieldsArePlain(entry);
      var line := Serialize(entry);
      assert line == Example().serialize(entry);
      var parsed: SessionEntry :| Serialize(parsed) == line && Parse(line) == Some(parsed);
      SerializeInjective(entry, parsed);
    }
    forall pieces
      ensures GlueIsCorrupt(Example(), pieces)
    {
      if |pieces| >= 2 && Fragments(Example(), pieces) {
        GluedFragmentsDoNotParse(pieces);
      }
    }
  }
}
