/** Texts that agree up to the case of ASCII letters are interchangeable: the filter, the prefix test and
    the natural order do not tell them apart, and tell apart what differs otherwise. */
module LetterCase {
  import opened Folding
  import opened TextSearch
  import opened TextOrder
  import opened NaturalSort

  /** The tables lowercase the two cases of an ASCII letter alike. */
  ghost predicate LowersCasesAlike(unicode: Unicode) {
    forall a, b :: AreCases(a, b) ==> unicode.lower(a) == unicode.lower(b)
  }

  lemma {:induction false} FoldIgnoresCase(unicode: Unicode, a: string, b: string)
    requires LowersCasesAlike(unicode) && EqIgnoreCase(a, b)
    ensures Fold(unicode, a) == Fold(unicode, b)
  {
    if a != [] {
      var n := |a| - 1;
      FoldIgnoresCase(unicode, a[..n], b[..n]);
      assert SameLetter(a[n], b[n]);
    }
  }

  lemma CaseKeepsAscii(a: string, b: string)
    requires EqIgnoreCase(a, b)
    ensures IsAscii(a) <==> IsAscii(b)
  {
    forall i | 0 <= i < |a|
      ensures IsAsciiChar(a[i]) <==> IsAsciiChar(b[i])
    {
      assert SameLetter(a[i], b[i]);
    }
  }

  lemma {:induction false} PrefixIgnoresCase(needle: string, needle': string, text: string, text': string)
    requires EqIgnoreCase(needle, needle') && EqIgnoreCase(text, text')
    ensures StartsWithIgnoringCase(text, needle) ==> StartsWithIgnoringCase(text', needle')
  {
    if StartsWithIgnoringCase(text, needle) {
      forall k | 0 <= k < |needle|
        ensures SameLetter(text'[..|needle|][k], needle'[k])
      {
        assert SameLetter(text[..|needle|][k], needle[k]) && SameLetter(needle[k], needle'[k]);
        assert SameLetter(text[k], text'[k]);
      }
    }
  }

  lemma {:induction false} WindowsIgnoreCase(needle: string, needle': string, text: string, text': string)
    requires EqIgnoreCase(needle, needle') && EqIgnoreCase(text, text')
    ensures ContainsIgnoringCase(text, needle) ==> ContainsIgnoringCase(text', needle')
  {
    if ContainsIgnoringCase(text, needle) {
      var i :| 0 <= i <= |text| && StartsWithIgnoringCase(text[i..], needle);
      forall k | 0 <= k < |text[i..]|
        ensures SameLetter(text[i..][k], text'[i..][k])
      {
        assert SameLetter(text[i + k], text'[i + k]);
      }
      PrefixIgnoresCase(needle, needle', text[i..], text'[i..]);
    }
  }

  lemma CasesAreMutual(a: string, b: string)
    requires EqIgnoreCase(a, b)
    ensures EqIgnoreCase(b, a)
  {
    forall i | 0 <= i < |a|
      ensures SameLetter(b[i], a[i])
    {
      assert SameLetter(a[i], b[i]);
    }
  }

  /** The case of an ASCII letter, in the query or in the text, changes neither answer. */
  lemma MatchIgnoresCase(unicode: Unicode, needle: string, needle': string, text: string, text': string)
    requires EqIgnoreCase(needle, needle') && EqIgnoreCase(text, text')
    requires IsAscii(needle) || LowersCasesAlike(unicode)
    ensures IsMatch(unicode, needle, text) <==> IsMatch(unicode, needle', text')
    ensures IsPrefixMatch(unicode, needle, text) <==> IsPrefixMatch(unicode, needle', text')
  {
    CaseKeepsAscii(needle, needle');
    CasesAreMutual(needle, needle');
    CasesAreMutual(text, text');
    hide EqIgnoreCase;
    if IsAscii(needle) {
      WindowsIgnoreCase(needle, needle', text, text');
      WindowsIgnoreCase(needle', needle, text', text);
      PrefixIgnoresCase(needle, needle', text, text');
      PrefixIgnoresCase(needle', needle, text', text);
    } else {
      FoldIgnoresCase(unicode, needle, needle');
      FoldIgnoresCase(unicode, text, text');
    }
  }

  /** Nothing else is ignored: a query of one ASCII character matches a text of one character exactly if
      these are the same letter. */
  lemma OneCharacterMatches(unicode: Unicode, c: char, d: char)
    requires IsAsciiChar(c)
    ensures IsMatch(unicode, [c], [d]) <==> SameLetter(d, c)
    ensures IsPrefixMatch(unicode, [c], [d]) <==> SameLetter(d, c)
    ensures NaturalCompare([c], [d]) == Equal <==> SameLetter(d, c)
  {
    assert [d][0..] == [d] && [d][1..] == [] && [d][..1] == [d];
    if SameLetter(d, c) { assert StartsWithIgnoringCase([d][0..], [c]); }
    if IsMatch(unicode, [c], [d]) {
      var i :| 0 <= i <= 1 && StartsWithIgnoringCase([d][i..], [c]);
      assert SameLetter([d][i..][..1][0], c);
    }
    if IsPrefixMatch(unicode, [c], [d]) { assert SameLetter([d][..1][0], c); }
    NaturalOrderIsTotal([c], [d], []);
    assert EqIgnoreCase([c], [d]) <==> SameLetter([c][0], [d][0]);
  }

  /** The letters at one place of the alphabet are the same letter, and no other two characters are. */
  lemma CapitalAndSmall(i: nat, c: char)
    requires i < 26
    ensures SameLetter(('A' as int + i) as char, c) <==> c as int == 'A' as int + i || c as int == 'a' as int + i
    ensures SameLetter(('a' as int + i) as char, c) <==> c as int == 'A' as int + i || c as int == 'a' as int + i
    ensures !('A' <= c <= 'Z' || 'a' <= c <= 'z') ==> forall d :: SameLetter(c, d) <==> c == d
  {
  }

  /** The natural order reads capital letters as small ones, also where they differ. */
  lemma LettersCompareSmall(c: char, left: string, d: char, right: string)
    requires !(IsDigit(c) && IsDigit(d))
    ensures exists x, y :: SameLetter(c, x) && SameLetter(d, y) && !IsUpperCase(x) && !IsUpperCase(y)
              && NaturalCompare([c] + left, [d] + right)
                 == CompareInts(x as int, y as int).Then(NaturalCompare(left, right))
  {
    LettersDecide([c] + left, [d] + right);
    assert ([c] + left)[1..] == left && ([d] + right)[1..] == right;
    var x, y := AsciiLower(c), AsciiLower(d);
    assert SameLetter(c, x) && SameLetter(d, y);
  }

  lemma ReadmeIsFound(unicode: Unicode)
    ensures IsMatch(unicode, "readme", "a README.md") && IsPrefixMatch(unicode, "readme", "README.md")
    ensures !IsPrefixMatch(unicode, "readme", "READ_ME")
    ensures NaturalCompare("a", "B") == Less && NaturalCompare("_", "A") == Less
  {
    assert "a README.md"[2..][..6] == "README" == "README.md"[..6];
    assert StartsWithIgnoringCase("a README.md"[2..], "readme");
    assert !SameLetter("READ_ME"[..6][4], "readme"[4]);
    LettersDecide("a", "B");
    LettersDecide("_", "A");
  }
}
