/** Case folding: every character lowercases to one or more characters. The Unicode tables themselves
    are a parameter. */
module Folding {

  datatype Unicode = Unicode(lower: char -> seq<char>, isSpace: char -> bool)

  function Fold(unicode: Unicode, text: string): seq<char> {
    if text == [] then [] else Fold(unicode, text[..|text| - 1]) + unicode.lower(text[|text| - 1])
  }

  lemma FoldSnoc(unicode: Unicode, text: string, c: char)
    ensures Fold(unicode, text + [c]) == Fold(unicode, text) + unicode.lower(c)
  {
    assert (text + [c])[..|text|] == text;
  }

  lemma {:induction false} FoldAppend(unicode: Unicode, a: string, b: string)
    ensures Fold(unicode, a + b) == Fold(unicode, a) + Fold(unicode, b)
    decreases |b|
  {
    if b == [] {
      assert a + b == a;
    } else {
      var front, last := b[..|b| - 1], b[|b| - 1];
      assert a + b == (a + front) + [last];
      FoldSnoc(unicode, a + front, last);
      FoldAppend(unicode, a, front);
    }
  }

  /** Every character leaves something behind when lowercased. */
  ghost predicate LowersToSomething(unicode: Unicode) {
    forall c :: unicode.lower(c) != []
  }

  ghost predicate OccursAt<T>(needle: seq<T>, haystack: seq<T>, i: nat) {
    i + |needle| <= |haystack| && haystack[i..i + |needle|] == needle
  }

  ghost predicate Occurs<T>(needle: seq<T>, haystack: seq<T>) {
    exists i :: 0 <= i <= |haystack| && OccursAt(needle, haystack, i)
  }

  function TrimStart(unicode: Unicode, text: string): string {
    if text != [] && unicode.isSpace(text[0]) then TrimStart(unicode, text[1..]) else text
  }

  function TrimEnd(unicode: Unicode, text: string): string {
    if text != [] && unicode.isSpace(text[|text| - 1]) then TrimEnd(unicode, text[..|text| - 1]) else text
  }

  function Trim(unicode: Unicode, text: string): string {
    TrimEnd(unicode, TrimStart(unicode, text))
  }

  ghost predicate AllSpace(unicode: Unicode, text: string) {
    forall i :: 0 <= i < |text| ==> unicode.isSpace(text[i])
  }

  /** Trimming takes the white space off both ends, all of it and nothing else. */
  lemma {:induction false} TrimTakesWhiteSpace(unicode: Unicode, text: string) returns (before: string, after: string)
    ensures text == before + (Trim(unicode, text) + after) && AllSpace(unicode, before) && AllSpace(unicode, after)
    ensures var trimmed := Trim(unicode, text);
      trimmed != [] ==> !unicode.isSpace(trimmed[0]) && !unicode.isSpace(trimmed[|trimmed| - 1])
  {
    var front := TrimStart(unicode, text);
    before := SpaceBefore(unicode, text);
    after := SpaceAfter(unicode, front);
    TrimStartTrims(unicode, text);
    TrimEndTrims(unicode, front);
  }

  lemma {:induction false} SpaceBefore(unicode: Unicode, text: string) returns (before: string)
    ensures text == before + TrimStart(unicode, text) && AllSpace(unicode, before)
  {
    if text != [] && unicode.isSpace(text[0]) {
      before := SpaceBefore(unicode, text[1..]);
      assert text == [text[0]] + text[1..];
      before := [text[0]] + before;
    } else {
      before := [];
    }
  }

  lemma {:induction false} SpaceAfter(unicode: Unicode, text: string) returns (after: string)
    ensures text == TrimEnd(unicode, text) + after && AllSpace(unicode, after)
  {
    if text != [] && unicode.isSpace(text[|text| - 1]) {
      var n := |text| - 1;
      after := SpaceAfter(unicode, text[..n]);
      after := after + [text[n]];
    } else {
      after := [];
    }
  }

  lemma {:induction false} TrimIdempotent(unicode: Unicode, text: string)
    ensures Trim(unicode, Trim(unicode, text)) == Trim(unicode, text)
  {
    var front := TrimStart(unicode, text);
    TrimStartTrims(unicode, text);
    TrimEndTrims(unicode, front);
  }

  lemma {:induction false} TrimStartTrims(unicode: Unicode, text: string)
    ensures var trimmed := TrimStart(unicode, text);
      trimmed != [] ==> !unicode.isSpace(trimmed[0])
  {
    if text != [] && unicode.isSpace(text[0]) {
      TrimStartTrims(unicode, text[1..]);
    }
  }

  lemma {:induction false} TrimEndTrims(unicode: Unicode, text: string)
    ensures var trimmed := TrimEnd(unicode, text);
      && trimmed <= text
      && (trimmed != [] ==> !unicode.isSpace(trimmed[|trimmed| - 1]))
  {
    if text != [] && unicode.isSpace(text[|text| - 1]) {
      TrimEndTrims(unicode, text[..|text| - 1]);
    }
  }
}
