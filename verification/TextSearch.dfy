/** The reusable case-insensitive query: ASCII needles compare bytes, others search the folded text. */
module TextSearch {
  import opened Wrappers
  import opened Folding
  import opened Numbers
  import Kmp

  predicate IsAsciiChar(c: char) { c as int < 128 }

  predicate IsAscii(text: string) { forall i :: 0 <= i < |text| ==> IsAsciiChar(text[i]) }

  // ----- UTF-8 -----

  function Utf8Char(c: char): (bytes: seq<Byte>)
    ensures bytes != []
    ensures IsAsciiChar(c) ==> bytes == [c as int]
    ensures !IsAsciiChar(c) ==> forall i :: 0 <= i < |bytes| ==> bytes[i] >= 128
  {
    var n := c as int;
    if n < 0x80 then [n]
    else if n < 0x800 then [0xC0 + n / 0x40, 0x80 + n % 0x40]
    else if n < 0x1_0000 then [0xE0 + n / 0x1000, 0x80 + n / 0x40 % 0x40, 0x80 + n % 0x40]
    else [0xF0 + n / 0x4_0000, 0x80 + n / 0x1000 % 0x40, 0x80 + n / 0x40 % 0x40, 0x80 + n % 0x40]
  }

  function Utf8(text: string): seq<Byte> {
    if text == [] then [] else Utf8Char(text[0]) + Utf8(text[1..])
  }

  // ----- letters up to case -----

  predicate IsUpperCase(c: char) { 'A' <= c <= 'Z' }

  /** A capital ASCII letter and the small one at the same place of the alphabet. */
  predicate AreCases(capital: char, small: char) {
    IsUpperCase(capital) && 'a' <= small <= 'z' && small as int - 'a' as int == capital as int - 'A' as int
  }

  predicate SameLetter(a: char, b: char) { a == b || AreCases(a, b) || AreCases(b, a) }

  function AsciiLowerByte(b: Byte): Byte { if 65 <= b <= 90 then b + 32 else b }

  /** The small letter for a capital one, and every other character as it is. */
  function AsciiLower(c: char): (lower: char)
    ensures SameLetter(c, lower) && !IsUpperCase(lower)
    ensures !IsUpperCase(c) ==> lower == c
  {
    if 'A' <= c <= 'Z' then (c as int + 32) as char else c
  }

  lemma SameLowered(a: char, b: char)
    ensures AsciiLower(a) == AsciiLower(b) <==> SameLetter(a, b)
  {
  }

  lemma SameLoweredByte(a: char, b: char)
    requires IsAsciiChar(a) && IsAsciiChar(b)
    ensures AsciiLowerByte(a as int) == AsciiLowerByte(b as int) <==> SameLetter(a, b)
  {
  }

  /** `eq_ignore_ascii_case` on byte slices. */
  predicate EqIgnoreAsciiCase(a: seq<Byte>, b: seq<Byte>) {
    |a| == |b| && forall i :: 0 <= i < |a| ==> AsciiLowerByte(a[i]) == AsciiLowerByte(b[i])
  }

  /** What this means for characters. */
  predicate EqIgnoreCase(a: string, b: string) {
    |a| == |b| && forall i :: 0 <= i < |a| ==> SameLetter(a[i], b[i])
  }

  predicate StartsWithBytes(haystack: seq<Byte>, needle: seq<Byte>) {
    |needle| <= |haystack| && EqIgnoreAsciiCase(haystack[..|needle|], needle)
  }

  predicate WindowMatches(haystack: seq<Byte>, needle: seq<Byte>, i: nat) {
    i + |needle| <= |haystack| && EqIgnoreAsciiCase(haystack[i..i + |needle|], needle)
  }

  predicate HasByteWindow(haystack: seq<Byte>, needle: seq<Byte>) {
    exists i :: 0 <= i <= |haystack| && WindowMatches(haystack, needle, i)
  }

  ghost predicate StartsWithIgnoringCase(haystack: string, needle: string) {
    |needle| <= |haystack| && EqIgnoreCase(haystack[..|needle|], needle)
  }

  ghost predicate ContainsIgnoringCase(haystack: string, needle: string) {
    exists i :: 0 <= i <= |haystack| && StartsWithIgnoringCase(haystack[i..], needle)
  }

  lemma {:induction false} AsciiUtf8(text: string)
    requires IsAscii(text)
    ensures |Utf8(text)| == |text| && forall i :: 0 <= i < |text| ==> Utf8(text)[i] == text[i] as int
  {
    if text != [] {
      assert IsAscii(text[1..]);
      AsciiUtf8(text[1..]);
    }
  }

  /** Byte prefixes are character prefixes: an ASCII needle never matches inside a longer encoding. */
  lemma {:induction false} BytePrefixIsCharPrefix(haystack: string, needle: string)
    requires IsAscii(needle)
    ensures StartsWithBytes(Utf8(haystack), Utf8(needle)) <==> StartsWithIgnoringCase(haystack, needle)
    decreases |needle|
  {
    AsciiUtf8(needle);
    if needle == [] {
    } else if haystack == [] {
    } else {
      var h, n := Utf8(haystack), Utf8(needle);
      var first := Utf8Char(haystack[0]);
      assert IsAscii(needle[1..]) && IsAsciiChar(needle[0]);
      AsciiUtf8(needle[1..]);
      assert n == [needle[0] as int] + Utf8(needle[1..]);
      BytePrefixIsCharPrefix(haystack[1..], needle[1..]);
      if IsAsciiChar(haystack[0]) {
        ConsBytes(haystack[0] as int, Utf8(haystack[1..]), needle[0] as int, Utf8(needle[1..]));
        ConsChars(haystack, needle);
        SameLoweredByte(haystack[0], needle[0]);
      } else {
        assert h[0] == first[0] >= 128;
        FirstByteDiffers(h, n);
        FirstLetterDiffers(haystack, needle);
      }
    }
  }

  lemma FirstByteDiffers(haystack: seq<Byte>, needle: seq<Byte>)
    requires haystack != [] && needle != [] && haystack[0] >= 128 > needle[0]
    ensures !StartsWithBytes(haystack, needle)
  {
    if |needle| <= |haystack| {
      assert AsciiLowerByte(haystack[..|needle|][0]) != AsciiLowerByte(needle[0]);
    }
  }

  lemma FirstLetterDiffers(haystack: string, needle: string)
    requires haystack != [] && needle != [] && !SameLetter(haystack[0], needle[0])
    ensures !StartsWithIgnoringCase(haystack, needle)
  {
    if |needle| <= |haystack| {
      assert !SameLetter(haystack[..|needle|][0], needle[0]);
    }
  }

  lemma ConsBytes(a: Byte, haystack: seq<Byte>, b: Byte, needle: seq<Byte>)
    ensures StartsWithBytes([a] + haystack, [b] + needle)
            <==> AsciiLowerByte(a) == AsciiLowerByte(b) && StartsWithBytes(haystack, needle)
  {
    var h, n := [a] + haystack, [b] + needle;
    if |needle| <= |haystack| {
      assert h[..|n|] == [a] + haystack[..|needle|];
      if StartsWithBytes(h, n) {
        assert AsciiLowerByte(h[..|n|][0]) == AsciiLowerByte(n[0]);
        forall i | 0 <= i < |needle|
          ensures AsciiLowerByte(haystack[..|needle|][i]) == AsciiLowerByte(needle[i])
        {
          assert AsciiLowerByte(h[..|n|][i + 1]) == AsciiLowerByte(n[i + 1]);
        }
      }
    }
  }

  lemma ConsChars(haystack: string, needle: string)
    requires haystack != [] && needle != []
    ensures StartsWithIgnoringCase(haystack, needle)
            <==> SameLetter(haystack[0], needle[0]) && StartsWithIgnoringCase(haystack[1..], needle[1..])
  {
    var m := |needle|;
    if m <= |haystack| {
      assert haystack[..m] == [haystack[0]] + haystack[1..][..m - 1];
      assert needle == [needle[0]] + needle[1..];
      if StartsWithIgnoringCase(haystack, needle) {
        assert SameLetter(haystack[..m][0], needle[0]);
        forall i | 0 <= i < m - 1
          ensures SameLetter(haystack[1..][..m - 1][i], needle[1..][i])
        {
          assert SameLetter(haystack[..m][i + 1], needle[i + 1]);
        }
      }
    }
  }

  /** A window of the rest is a window one character later, unless it starts here. */
  lemma {:induction false} ByteWindowIsCharWindow(haystack: string, needle: string)
    requires IsAscii(needle) && needle != []
    ensures HasByteWindow(Utf8(haystack), Utf8(needle)) <==> ContainsIgnoringCase(haystack, needle)
    decreases |haystack|
  {
    var h, n := Utf8(haystack), Utf8(needle);
    AsciiUtf8(needle);
    if haystack == [] {
      assert !StartsWithIgnoringCase(haystack[0..], needle);
      assert !ContainsIgnoringCase(haystack, needle);
    } else {
      var first, rest := Utf8Char(haystack[0]), Utf8(haystack[1..]);
      ByteWindowIsCharWindow(haystack[1..], needle);
      BytePrefixIsCharPrefix(haystack, needle);
      ByteWindowStep(first, rest, n, IsAsciiChar(haystack[0]));
      CharWindowStep(haystack, needle);
    }
  }

  lemma ByteWindowStep(first: seq<Byte>, rest: seq<Byte>, needle: seq<Byte>, ascii: bool)
    requires first != [] && needle != []
    requires if ascii then |first| == 1 else forall i :: 0 <= i < |first| ==> first[i] >= 128
    requires forall i :: 0 <= i < |needle| ==> needle[i] < 128
    ensures HasByteWindow(first + rest, needle)
            <==> StartsWithBytes(first + rest, needle) || HasByteWindow(rest, needle)
  {
    var h := first + rest;
    if HasByteWindow(h, needle) {
      var i :| 0 <= i <= |h| && WindowMatches(h, needle, i);
      if i == 0 {
        assert h[0..0 + |needle|] == h[..|needle|];
      } else if i < |first| {
        NoWindowInsideCharacter(first, rest, needle, i);
      } else {
        WindowBehind(first, rest, needle, i - |first|);
      }
    }
    if HasByteWindow(rest, needle) {
      var k :| 0 <= k <= |rest| && WindowMatches(rest, needle, k);
      WindowBehind(first, rest, needle, k);
    }
    if StartsWithBytes(h, needle) {
      assert h[0..0 + |needle|] == h[..|needle|];
      assert WindowMatches(h, needle, 0);
    }
  }

  lemma NoWindowInsideCharacter(first: seq<Byte>, rest: seq<Byte>, needle: seq<Byte>, i: nat)
    requires i < |first| && first[i] >= 128 && needle != [] && needle[0] < 128
    ensures !WindowMatches(first + rest, needle, i)
  {
    var h := first + rest;
    if i + |needle| <= |h| {
      assert AsciiLowerByte(h[i..i + |needle|][0]) == first[i] != AsciiLowerByte(needle[0]);
    }
  }

  lemma WindowBehind(first: seq<Byte>, rest: seq<Byte>, needle: seq<Byte>, k: nat)
    ensures WindowMatches(first + rest, needle, k + |first|) <==> WindowMatches(rest, needle, k)
  {
    if k + |needle| <= |rest| {
      assert (first + rest)[k + |first|..k + |first| + |needle|] == rest[k..k + |needle|];
    }
  }

  lemma CharWindowStep(haystack: string, needle: string)
    requires haystack != []
    ensures ContainsIgnoringCase(haystack, needle)
            <==> StartsWithIgnoringCase(haystack, needle) || ContainsIgnoringCase(haystack[1..], needle)
  {
    assert haystack[0..] == haystack;
    if ContainsIgnoringCase(haystack, needle) {
      var i :| 0 <= i <= |haystack| && StartsWithIgnoringCase(haystack[i..], needle);
      if i > 0 { assert haystack[i..] == haystack[1..][i - 1..]; }
    }
    if ContainsIgnoringCase(haystack[1..], needle) {
      var i :| 0 <= i <= |haystack[1..]| && StartsWithIgnoringCase(haystack[1..][i..], needle);
      assert haystack[1..][i..] == haystack[i + 1..];
    }
  }

  // ----- the query -----

  datatype FoldedNeedle = FoldedNeedle(chars: seq<char>, prefixLengths: seq<nat>)

  datatype Query = Query(needle: string, folded: Option<FoldedNeedle>)

  ghost predicate ValidQuery(unicode: Unicode, query: Query) {
    if IsAscii(query.needle) then query.folded == None
    else
      && query.folded.Some?
      && query.folded.value.chars == Fold(unicode, query.needle)
      && Kmp.BorderTable(query.folded.value.chars, query.folded.value.prefixLengths, |query.folded.value.chars|)
  }

  /** What it means for a text to match. */
  ghost predicate IsMatch(unicode: Unicode, needle: string, haystack: string) {
    if IsAscii(needle) then ContainsIgnoringCase(haystack, needle)
    else Occurs(Fold(unicode, needle), Fold(unicode, haystack))
  }

  ghost predicate IsPrefixMatch(unicode: Unicode, needle: string, haystack: string) {
    if IsAscii(needle) then StartsWithIgnoringCase(haystack, needle)
    else Fold(unicode, needle) <= Fold(unicode, haystack)
  }

  method NewQuery(unicode: Unicode, needle: string) returns (query: Query)
    ensures query.needle == needle && ValidQuery(unicode, query)
  {
    if IsAscii(needle) {
      query := Query(needle, None);
    } else {
      var chars := Fold(unicode, needle);
      var prefixLengths := Kmp.PrefixLengths(chars);
      query := Query(needle, Some(FoldedNeedle(chars, prefixLengths[..])));
    }
  }

  method Matches(unicode: Unicode, query: Query, haystack: string) returns (matches: bool)
    requires ValidQuery(unicode, query)
    ensures matches <==> IsMatch(unicode, query.needle, haystack)
  {
    if query.needle == [] {
      assert StartsWithIgnoringCase(haystack[0..], query.needle);
      return true;
    }
    match query.folded {
      case Some(folded) =>
        var found, _, _ := Kmp.Contains(folded.chars, folded.prefixLengths, Fold(unicode, haystack));
        matches := found;
      case None =>
        ByteWindowIsCharWindow(haystack, query.needle);
        matches := HasByteWindow(Utf8(haystack), Utf8(query.needle));
    }
  }

  method StartsWith(unicode: Unicode, query: Query, haystack: string) returns (starts: bool)
    requires ValidQuery(unicode, query)
    ensures starts <==> IsPrefixMatch(unicode, query.needle, haystack)
  {
    if query.needle == [] { return true; }
    match query.folded {
      case Some(folded) =>
        starts := folded.chars <= Fold(unicode, haystack);
      case None =>
        BytePrefixIsCharPrefix(haystack, query.needle);
        starts := StartsWithBytes(Utf8(haystack), Utf8(query.needle));
    }
  }
}
