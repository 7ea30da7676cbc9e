/** Which parts of a text a query highlights, and the spans that show them. */
module SearchHighlight {
  import opened Wrappers
  import opened Folding
  import opened TextSearch

  // ----- the naive folded substring search -----

  /** The k-th folded character comes from character `j` of the text. */
  ghost predicate ProducedBy(unicode: Unicode, text: string, k: nat, j: nat) {
    j < |text| && |Fold(unicode, text[..j])| <= k < |Fold(unicode, text[..j + 1])|
  }

  ghost predicate FirstOccurrence(needle: seq<char>, haystack: seq<char>, i: nat) {
    OccursAt(needle, haystack, i) && forall k :: 0 <= k < i ==> !OccursAt(needle, haystack, k)
  }

  /** The characters `start..end` are exactly those that produce the first occurrence. */
  ghost predicate IsMatchRange(unicode: Unicode, text: string, query: string, start: nat, end: nat) {
    var needle := Fold(unicode, query);
    exists i: nat ::
      && FirstOccurrence(needle, Fold(unicode, text), i)
      && needle != []
      && ProducedBy(unicode, text, i, start)
      && 0 < end && ProducedBy(unicode, text, i + |needle| - 1, end - 1)
  }

  ghost predicate HasHighlight(unicode: Unicode, text: string, query: string) {
    Fold(unicode, query) != [] && Occurs(Fold(unicode, query), Fold(unicode, text))
  }

  lemma {:induction false} FoldMonotone(unicode: Unicode, text: string, i: nat, j: nat)
    requires i <= j <= |text|
    ensures Fold(unicode, text[..i]) <= Fold(unicode, text[..j])
    decreases j
  {
    if i < j {
      assert text[..j][..j - 1] == text[..j - 1];
      FoldMonotone(unicode, text, i, j - 1);
    }
  }

  method FindCaseInsensitiveSubstring(unicode: Unicode, text: string, query: string)
    returns (range: Option<(nat, nat)>)
    ensures range.Some? <==> HasHighlight(unicode, text, query)
    ensures range.Some? ==> IsMatchRange(unicode, text, query, range.value.0, range.value.1)
    ensures range.Some? ==> range.value.0 < range.value.1 <= |text|
  {
    var queryChars := Fold(unicode, query);
    if queryChars == [] { return None; }
    var foldedText, foldedToOriginal := FoldWithOrigins(unicode, text);
    if |queryChars| > |foldedText| { return None; }
    var start := 0;
    while start <= |foldedText| - |queryChars|
      invariant 0 <= start <= |foldedText| - |queryChars| + 1
      invariant forall k :: 0 <= k < start ==> !OccursAt(queryChars, foldedText, k)
    {
      if foldedText[start..start + |queryChars|] == queryChars {
        assert OccursAt(queryChars, foldedText, start);
        assert FirstOccurrence(queryChars, foldedText, start);
        var startIndex := foldedToOriginal[start];
        var endIndex := foldedToOriginal[start + |queryChars| - 1] + 1;
        OriginsAscend(unicode, text, start, startIndex, start + |queryChars| - 1, endIndex - 1);
        return Some((startIndex, endIndex));
      }
      start := start + 1;
    }
    range := None;
  }

  lemma OriginsAscend(unicode: Unicode, text: string, k: nat, j: nat, k': nat, j': nat)
    requires ProducedBy(unicode, text, k, j) && ProducedBy(unicode, text, k', j') && k <= k'
    ensures j <= j'
  {
    if j' < j {
      FoldMonotone(unicode, text, j' + 1, j);
    }
  }

  method FoldWithOrigins(unicode: Unicode, text: string) returns (folded: seq<char>, origins: seq<nat>)
    ensures folded == Fold(unicode, text) && |origins| == |folded|
    ensures forall k :: 0 <= k < |origins| ==> ProducedBy(unicode, text, k, origins[k])
  {
    folded, origins := [], [];
    var index := 0;
    while index < |text|
      invariant 0 <= index <= |text|
      invariant folded == Fold(unicode, text[..index]) && |origins| == |folded|
      invariant forall k :: 0 <= k < |origins| ==> ProducedBy(unicode, text, k, origins[k])
    {
      var lowered := unicode.lower(text[index]);
      assert text[..index + 1] == text[..index] + [text[index]];
      FoldSnoc(unicode, text[..index], text[index]);
      ghost var n := |folded|;
      var i := 0;
      while i < |lowered|
        invariant 0 <= i <= |lowered|
        invariant folded == Fold(unicode, text[..index]) + lowered[..i] && |origins| == |folded| == n + i
        invariant forall k :: 0 <= k < |origins| ==> ProducedBy(unicode, text, k, origins[k])
      {
        assert lowered[..i + 1] == lowered[..i] + [lowered[i]];
        folded := folded + [lowered[i]];
        origins := origins + [index];
        i := i + 1;
      }
      assert lowered[..i] == lowered;
      index := index + 1;
    }
    assert text[..index] == text;
  }

  // ----- the filter and the highlight -----

  /** For needles that are not ASCII, a row passes the filter exactly when its match can be shown. */
  lemma FilterAgreesWithHighlight(unicode: Unicode, text: string, needle: string)
    requires LowersToSomething(unicode) && !IsAscii(needle)
    ensures IsMatch(unicode, needle, text) <==> HasHighlight(unicode, text, needle)
  {
    assert needle != [];
    assert unicode.lower(needle[|needle| - 1]) != [];
  }

  ghost predicate LowersAscii(unicode: Unicode) {
    forall c :: IsAsciiChar(c) ==> unicode.lower(c) == [AsciiLower(c)]
  }

  /** No character outside ASCII lowercases to something with an ASCII character in it. */
  ghost predicate FoldsApart(unicode: Unicode, text: string) {
    forall i :: 0 <= i < |text| && !IsAsciiChar(text[i]) ==> NoAscii(unicode.lower(text[i]))
  }

  ghost predicate NoAscii(chars: seq<char>) {
    forall k :: 0 <= k < |chars| ==> !IsAsciiChar(chars[k])
  }

  lemma {:induction false} FoldOfAscii(unicode: Unicode, text: string)
    requires LowersAscii(unicode) && IsAscii(text)
    ensures |Fold(unicode, text)| == |text|
    ensures forall i :: 0 <= i < |text| ==> Fold(unicode, text)[i] == AsciiLower(text[i])
  {
    if text != [] {
      var front := text[..|text| - 1];
      assert IsAscii(front);
      FoldOfAscii(unicode, front);
      assert IsAsciiChar(text[|text| - 1]);
    }
  }

  /** The k-th folded character comes from an ASCII character. */
  ghost predicate MadeByAscii(unicode: Unicode, text: string, k: nat) {
    forall j: nat :: ProducedBy(unicode, text, k, j) ==> IsAsciiChar(text[j])
  }

  /** The needle occurs in the folded text, all of it made by ASCII characters. */
  ghost predicate PlainOccurrence(unicode: Unicode, text: string, needle: string, p: nat) {
    && OccursAt(Fold(unicode, needle), Fold(unicode, text), p)
    && forall k: nat :: p <= k < p + |needle| ==> MadeByAscii(unicode, text, k)
  }

  ghost predicate HasPlainOccurrence(unicode: Unicode, text: string, needle: string) {
    exists p: nat :: PlainOccurrence(unicode, text, needle, p)
  }

  /** A window that equals the needle up to ASCII case. */
  lemma {:induction false} WindowFolds(unicode: Unicode, text: string, needle: string, i: nat)
    requires LowersAscii(unicode) && IsAscii(needle) && i <= |text| && StartsWithIgnoringCase(text[i..], needle)
    ensures i + |needle| <= |text| && IsAscii(text[i..i + |needle|])
    ensures Fold(unicode, text[i..i + |needle|]) == Fold(unicode, needle) && |Fold(unicode, needle)| == |needle|
  {
    var window := text[i..][..|needle|];
    forall k | 0 <= k < |needle|
      ensures IsAsciiChar(window[k])
    {
      assert SameLetter(window[k], needle[k]) && IsAsciiChar(needle[k]);
    }
    forall k | 0 <= k < |needle|
      ensures AsciiLower(window[k]) == AsciiLower(needle[k])
    {
      SameLowered(window[k], needle[k]);
    }
    FoldOfAscii(unicode, window);
    FoldOfAscii(unicode, needle);
    hide Fold;
    assert Fold(unicode, window) == Fold(unicode, needle);
    assert window == text[i..i + |needle|];
  }

  lemma WindowOccurs(unicode: Unicode, text: string, needle: string, i: nat)
    requires i + |needle| <= |text| && Fold(unicode, text[i..i + |needle|]) == Fold(unicode, needle)
    ensures OccursAt(Fold(unicode, needle), Fold(unicode, text), |Fold(unicode, text[..i])|)
    ensures |Fold(unicode, text[..i + |needle|])| == |Fold(unicode, text[..i])| + |Fold(unicode, needle)|
  {
    hide Fold;
    hide OccursAt;
    var end := i + |needle|;
    var front, window, rest := text[..i], text[i..end], text[end..];
    assert text == front + (window + rest) && text[..end] == front + window;
    FoldAppend(unicode, front, window + rest);
    FoldAppend(unicode, front, window);
    FoldAppend(unicode, window, rest);
    OccursBetween(Fold(unicode, front), Fold(unicode, needle), Fold(unicode, rest));
  }

  lemma {:induction false} WindowIsAscii(unicode: Unicode, text: string, i: nat, end: nat, k: nat)
    requires i <= end <= |text| && IsAscii(text[i..end])
    requires |Fold(unicode, text[..i])| <= k < |Fold(unicode, text[..end])|
    ensures MadeByAscii(unicode, text, k)
  {
    hide Fold;
    var window := text[i..end];
    forall j: nat | ProducedBy(unicode, text, k, j)
      ensures IsAsciiChar(text[j])
    {
      ProducedWithin(unicode, text, k, j, i, end);
      assert window[j - i] == text[j];
    }
  }

  /** What the ASCII filter accepts occurs plainly. */
  lemma {:induction false} AsciiMatchIsPlain(unicode: Unicode, text: string, needle: string)
    requires LowersAscii(unicode) && IsAscii(needle) && IsMatch(unicode, needle, text)
    ensures HasPlainOccurrence(unicode, text, needle)
  {
    var i :| 0 <= i <= |text| && StartsWithIgnoringCase(text[i..], needle);
    hide Fold;
    hide StartsWithIgnoringCase;
    hide MadeByAscii;
    WindowFolds(unicode, text, needle, i);
    WindowOccurs(unicode, text, needle, i);
    var p := |Fold(unicode, text[..i])|;
    forall k: nat | p <= k < p + |needle|
      ensures MadeByAscii(unicode, text, k)
    {
      WindowIsAscii(unicode, text, i, i + |needle|, k);
    }
    assert PlainOccurrence(unicode, text, needle, p);
  }

  lemma ProducedWithin(unicode: Unicode, text: string, k: nat, j: nat, i: nat, end: nat)
    requires ProducedBy(unicode, text, k, j) && i <= end <= |text|
    requires |Fold(unicode, text[..i])| <= k < |Fold(unicode, text[..end])|
    ensures i <= j < end
  {
    hide Fold;
    if j < i { FoldMonotone(unicode, text, j + 1, i); }
    if end <= j { FoldMonotone(unicode, text, end, j); }
  }

  lemma OccursBetween(a: seq<char>, needle: seq<char>, b: seq<char>)
    ensures OccursAt(needle, a + (needle + b), |a|)
  {
    var whole := a + (needle + b);
    assert whole[|a|..|a| + |needle|] == needle;
  }

  /** What the ASCII filter accepts, the highlight finds. */
  lemma AsciiMatchIsHighlighted(unicode: Unicode, text: string, needle: string)
    requires LowersAscii(unicode) && IsAscii(needle) && needle != []
    requires IsMatch(unicode, needle, text)
    ensures HasHighlight(unicode, text, needle)
  {
    AsciiMatchIsPlain(unicode, text, needle);
    FoldOfAscii(unicode, needle);
    hide Fold;
  }

  /** An ASCII character folds to one character. */
  lemma {:induction false} AsciiOrigin(unicode: Unicode, text: string, k: nat, j: nat)
    requires LowersAscii(unicode) && ProducedBy(unicode, text, k, j) && IsAsciiChar(text[j])
    ensures |Fold(unicode, text[..j])| == k < |Fold(unicode, text)| && Fold(unicode, text)[k] == AsciiLower(text[j])
    ensures |Fold(unicode, text[..j + 1])| == k + 1
  {
    hide Fold;
    assert text[..j + 1] == text[..j] + [text[j]];
    FoldSnoc(unicode, text[..j], text[j]);
    FoldMonotone(unicode, text, j + 1, |text|);
    assert text[..|text|] == text;
    assert Fold(unicode, text[..j + 1])[k] == AsciiLower(text[j]);
  }

  lemma {:induction false} EveryFoldedHasOrigin(unicode: Unicode, text: string, k: nat) returns (j: nat)
    requires k < |Fold(unicode, text)|
    ensures ProducedBy(unicode, text, k, j)
  {
    var n := |text| - 1;
    if |Fold(unicode, text[..n])| <= k {
      j := n;
      assert text[..n + 1] == text;
    } else {
      j := EveryFoldedHasOrigin(unicode, text[..n], k);
      assert text[..n][..j] == text[..j] && text[..n][..j + 1] == text[..j + 1];
    }
  }

  lemma {:induction false} PlainOccurrenceStep(unicode: Unicode, text: string, needle: string, p: nat, j: nat, k: nat)
    requires LowersAscii(unicode) && LowersToSomething(unicode) && IsAscii(needle)
    requires PlainOccurrence(unicode, text, needle, p)
    requires j <= |text| && k < |needle| && |Fold(unicode, text[..j])| == p + k
    ensures j < |text| && |Fold(unicode, text[..j + 1])| == p + k + 1
    ensures AsciiLower(text[j]) == AsciiLower(needle[k])
  {
    FoldOfAscii(unicode, needle);
    hide Fold;
    var folded, at := Fold(unicode, text), p + k;
    assert folded[at] == folded[p..p + |needle|][k] == AsciiLower(needle[k]);
    var origin := EveryFoldedHasOrigin(unicode, text, at);
    assert MadeByAscii(unicode, text, at);
    AsciiOrigin(unicode, text, at, origin);
    SameFoldLength(unicode, text, origin, j);
  }

  lemma {:induction false} PlainOccurrenceSteps(unicode: Unicode, text: string, needle: string, p: nat, j: nat, m: nat)
    requires LowersAscii(unicode) && LowersToSomething(unicode) && IsAscii(needle)
    requires PlainOccurrence(unicode, text, needle, p)
    requires j <= |text| && |Fold(unicode, text[..j])| == p && m <= |needle|
    ensures j + m <= |text| && |Fold(unicode, text[..j + m])| == p + m
    ensures forall k :: 0 <= k < m ==> AsciiLower(text[j + k]) == AsciiLower(needle[k])
    decreases m
  {
    hide *;
    if m > 0 {
      PlainOccurrenceSteps(unicode, text, needle, p, j, m - 1);
      PlainOccurrenceStep(unicode, text, needle, p, j + m - 1, m - 1);
      assert j + m - 1 + 1 == j + m;
    } else {
      assert j + m == j;
    }
  }

  /** Prefixes with equally long folds are equal. */
  lemma SameFoldLength(unicode: Unicode, text: string, i: nat, j: nat)
    requires LowersToSomething(unicode) && i <= |text| && j <= |text|
    requires |Fold(unicode, text[..i])| == |Fold(unicode, text[..j])|
    ensures i == j
  {
    if i < j {
      ShorterFoldsShorter(unicode, text, i, j);
    } else if j < i {
      ShorterFoldsShorter(unicode, text, j, i);
    }
  }

  lemma ShorterFoldsShorter(unicode: Unicode, text: string, i: nat, j: nat)
    requires LowersToSomething(unicode) && i < j <= |text|
    ensures |Fold(unicode, text[..i])| < |Fold(unicode, text[..j])|
  {
    assert text[..i + 1] == text[..i] + [text[i]];
    FoldSnoc(unicode, text[..i], text[i]);
    assert unicode.lower(text[i]) != [];
    FoldMonotone(unicode, text, i + 1, j);
  }

  /** The ASCII filter accepts a text if and only if the needle occurs in it plainly. */
  lemma {:induction false} AsciiFilterMatchesExactly(unicode: Unicode, text: string, needle: string)
    requires LowersToSomething(unicode) && LowersAscii(unicode) && IsAscii(needle) && needle != []
    ensures IsMatch(unicode, needle, text) <==> HasPlainOccurrence(unicode, text, needle)
  {
    if IsMatch(unicode, needle, text) {
      AsciiMatchIsPlain(unicode, text, needle);
    }
    if HasPlainOccurrence(unicode, text, needle) {
      var p: nat :| PlainOccurrence(unicode, text, needle, p);
      PlainOccurrenceBegins(unicode, text, needle, p);
    }
  }

  lemma {:induction false} PlainOccurrenceBegins(unicode: Unicode, text: string, needle: string, p: nat)
    requires LowersToSomething(unicode) && LowersAscii(unicode) && IsAscii(needle) && needle != []
    requires PlainOccurrence(unicode, text, needle, p)
    ensures ContainsIgnoringCase(text, needle)
  {
    FoldOfAscii(unicode, needle);
    hide Fold;
    var j := EveryFoldedHasOrigin(unicode, text, p);
    assert MadeByAscii(unicode, text, p);
    AsciiOrigin(unicode, text, p, j);
    PlainOccurrenceSteps(unicode, text, needle, p, j, |needle|);
    forall k | 0 <= k < |needle|
      ensures SameLetter(text[j..][..|needle|][k], needle[k])
    {
      SameLowered(text[j + k], needle[k]);
    }
    assert StartsWithIgnoringCase(text[j..], needle);
  }

  /** Filter and highlight agree on an ASCII needle unless it can be highlighted and every occurrence
      touches something that a character outside ASCII lowercases to. */
  lemma AsciiFilterAgreesExactly(unicode: Unicode, text: string, needle: string)
    requires LowersToSomething(unicode) && LowersAscii(unicode) && IsAscii(needle) && needle != []
    ensures IsMatch(unicode, needle, text) ==> HasHighlight(unicode, text, needle)
    ensures (IsMatch(unicode, needle, text) <==> HasHighlight(unicode, text, needle))
            <==> (HasHighlight(unicode, text, needle) ==> HasPlainOccurrence(unicode, text, needle))
  {
    AsciiFilterMatchesExactly(unicode, text, needle);
    if IsMatch(unicode, needle, text) {
      AsciiMatchIsHighlighted(unicode, text, needle);
    }
  }

  lemma {:induction false} OccurrenceIsPlain(unicode: Unicode, text: string, needle: string, p: nat)
    requires LowersAscii(unicode) && IsAscii(needle) && FoldsApart(unicode, text)
    requires OccursAt(Fold(unicode, needle), Fold(unicode, text), p)
    ensures PlainOccurrence(unicode, text, needle, p)
  {
    FoldOfAscii(unicode, needle);
    hide Fold;
    var folded := Fold(unicode, text);
    forall k: nat, j: nat | p <= k < p + |needle| && ProducedBy(unicode, text, k, j)
      ensures IsAsciiChar(text[j])
    {
      assert folded[k] == folded[p..p + |needle|][k - p] == AsciiLower(needle[k - p]);
      assert IsAsciiChar(needle[k - p]);
      OriginAt(unicode, text, k, j);
    }
    assert forall k: nat :: p <= k < p + |needle| ==> MadeByAscii(unicode, text, k);
  }

  lemma OriginAt(unicode: Unicode, text: string, k: nat, j: nat)
    requires ProducedBy(unicode, text, k, j)
    ensures k < |Fold(unicode, text)| && |Fold(unicode, text[..j])| <= k
    ensures k - |Fold(unicode, text[..j])| < |unicode.lower(text[j])|
    ensures Fold(unicode, text)[k] == unicode.lower(text[j])[k - |Fold(unicode, text[..j])|]
  {
    hide Fold;
    assert text[..j + 1] == text[..j] + [text[j]];
    FoldSnoc(unicode, text[..j], text[j]);
    FoldMonotone(unicode, text, j + 1, |text|);
    assert text[..|text|] == text;
  }

  /** So they agree on every text whose other characters lowercase to no ASCII character. */
  lemma AsciiFilterAgreesWithHighlight(unicode: Unicode, text: string, needle: string)
    requires LowersToSomething(unicode) && LowersAscii(unicode)
    requires IsAscii(needle) && needle != [] && FoldsApart(unicode, text)
    ensures IsMatch(unicode, needle, text) <==> HasHighlight(unicode, text, needle)
  {
    AsciiFilterAgreesExactly(unicode, text, needle);
    if HasHighlight(unicode, text, needle) {
      var p: nat :| p <= |Fold(unicode, text)| && OccursAt(Fold(unicode, needle), Fold(unicode, text), p);
      OccurrenceIsPlain(unicode, text, needle, p);
    }
  }

  /** They disagree on the Kelvin sign, which lowercases to an ASCII letter: it is highlighted but
      filtered out. */
  lemma KelvinIsHighlightedButFiltered(unicode: Unicode)
    requires LowersAscii(unicode) && unicode.lower('\U{212A}') == ['k']
    ensures HasHighlight(unicode, ['\U{212A}'], "k") && !IsMatch(unicode, "k", ['\U{212A}'])
  {
    var text := ['\U{212A}'];
    FoldSnoc(unicode, [], '\U{212A}');
    FoldSnoc(unicode, [], 'k');
    assert [] + text == text && [] + ['k'] == "k";
    assert Fold(unicode, text) == "k" && Fold(unicode, "k") == "k";
    assert OccursAt("k", "k", 0);
    forall i | 0 <= i <= 1
      ensures !StartsWithIgnoringCase(text[i..], "k")
    {
      assert i == 0 ==> text[i..][..1][0] == '\U{212A}';
    }
  }

  // ----- the greedy subsequence search -----

  datatype Greedy = Greedy(indices: seq<nat>, matched: nat)

  function GreedyStep(unicode: Unicode, needle: seq<char>, state: Greedy, index: nat, c: char): Greedy
    requires state.matched <= |needle|
  {
    var folded := unicode.lower(c);
    var next := state.matched + |folded|;
    if state.matched == |needle| || next > |needle| || needle[state.matched..next] != folded then state
    else Greedy(state.indices + [index], next)
  }

  function GreedyRun(unicode: Unicode, needle: seq<char>, text: string): (state: Greedy)
    ensures state.matched <= |needle|
  {
    if text == [] then Greedy([], 0)
    else
      var n := |text| - 1;
      GreedyStep(unicode, needle, GreedyRun(unicode, needle, text[..n]), n, text[n])
  }

  function SubsequenceIndices(unicode: Unicode, text: string, query: string): Option<seq<nat>> {
    var needle := Fold(unicode, query);
    var state := GreedyRun(unicode, needle, text);
    if state.matched == |needle| then Some(state.indices) else None
  }

  method FindCaseInsensitiveSubsequenceIndices(unicode: Unicode, text: string, query: string)
    returns (indices: Option<seq<nat>>)
    ensures indices == SubsequenceIndices(unicode, text, query)
  {
    hide Fold;
    hide GreedyRun;
    var queryChars := Fold(unicode, query);
    NothingRead(unicode, queryChars);
    assert text[..0] == [] && text[..|text|] == text;
    if queryChars == [] {
      NothingLeft(unicode, queryChars, text, 0);
      return Some([]);
    }
    var queryIndex: nat := 0;
    var matchedIndices: seq<nat> := [];
    var textIndex: nat := 0;
    while textIndex < |text|
      invariant 0 <= textIndex <= |text| && queryIndex < |queryChars|
      invariant Greedy(matchedIndices, queryIndex) == GreedyRun(unicode, queryChars, text[..textIndex])
    {
      var foldedCharacter := unicode.lower(text[textIndex]);
      var nextQueryIndex := queryIndex + |foldedCharacter|;
      OneMoreRead(unicode, queryChars, text, textIndex);
      if nextQueryIndex <= |queryChars| && queryChars[queryIndex..nextQueryIndex] == foldedCharacter {
        matchedIndices := matchedIndices + [textIndex];
        queryIndex := nextQueryIndex;
        if queryIndex == |queryChars| {
          NothingLeft(unicode, queryChars, text, textIndex + 1);
          return Some(matchedIndices);
        }
      }
      textIndex := textIndex + 1;
    }
    indices := None;
  }

  lemma NothingRead(unicode: Unicode, needle: seq<char>)
    ensures GreedyRun(unicode, needle, []) == Greedy([], 0)
  {
  }

  lemma OneMoreRead(unicode: Unicode, needle: seq<char>, text: string, k: nat)
    requires k < |text|
    ensures GreedyRun(unicode, needle, text[..k + 1])
            == GreedyStep(unicode, needle, GreedyRun(unicode, needle, text[..k]), k, text[k])
  {
    assert text[..k + 1][..k] == text[..k];
  }

  lemma {:induction false} NothingLeft(unicode: Unicode, needle: seq<char>, text: string, n: nat)
    requires n <= |text| && GreedyRun(unicode, needle, text[..n]).matched == |needle|
    ensures GreedyRun(unicode, needle, text) == GreedyRun(unicode, needle, text[..n])
    decreases |text|
  {
    if n < |text| {
      assert text[..|text| - 1][..n] == text[..n];
      NothingLeft(unicode, needle, text[..|text| - 1], n);
    } else {
      assert text[..n] == text;
    }
  }

  ghost predicate Ascends(indices: seq<nat>, bound: nat) {
    && (forall i :: 0 <= i < |indices| ==> indices[i] < bound)
    && forall i, j :: 0 <= i < j < |indices| ==> indices[i] < indices[j]
  }

  /** The characters at the indices. */
  function Pick(text: string, indices: seq<nat>): string
    requires forall i :: 0 <= i < |indices| ==> indices[i] < |text|
  {
    seq(|indices|, i requires 0 <= i < |indices| => text[indices[i]])
  }

  /** What the greedy search finds is there: the characters at the indices fold to the query. */
  lemma {:induction false} GreedyIsSound(unicode: Unicode, needle: seq<char>, text: string)
    ensures var state := GreedyRun(unicode, needle, text);
      && Ascends(state.indices, |text|)
      && Fold(unicode, Pick(text, state.indices)) == needle[..state.matched]
  {
    if text != [] {
      var n := |text| - 1;
      var before := GreedyRun(unicode, needle, text[..n]);
      GreedyIsSound(unicode, needle, text[..n]);
      assert Pick(text[..n], before.indices) == Pick(text, before.indices);
      SoundStep(unicode, needle, text, before);
    }
  }

  lemma SoundStep(unicode: Unicode, needle: seq<char>, text: string, before: Greedy)
    requires text != [] && before.matched <= |needle| && Ascends(before.indices, |text| - 1)
    requires Fold(unicode, Pick(text, before.indices)) == needle[..before.matched]
    ensures var state := GreedyStep(unicode, needle, before, |text| - 1, text[|text| - 1]);
      && state.matched <= |needle|
      && Ascends(state.indices, |text|)
      && Fold(unicode, Pick(text, state.indices)) == needle[..state.matched]
  {
    var n := |text| - 1;
    var state := GreedyStep(unicode, needle, before, n, text[n]);
    hide Fold;
    if state != before {
      assert Pick(text, state.indices) == Pick(text, before.indices) + [text[n]];
      FoldSnoc(unicode, Pick(text, before.indices), text[n]);
      assert needle[..state.matched] == needle[..before.matched] + needle[before.matched..state.matched];
    }
  }

  // ----- when the greedy search misses nothing -----

  /** `indices` picks characters, in order, that fold to the needle. */
  ghost predicate Embeds(unicode: Unicode, needle: seq<char>, text: string, indices: seq<nat>) {
    Ascends(indices, |text|) && Fold(unicode, Pick(text, indices)) == needle
  }

  ghost predicate IsEmbedded(unicode: Unicode, needle: seq<char>, text: string) {
    exists indices: seq<nat> :: Embeds(unicode, needle, text, indices)
  }

  /** The search finds the query if and only if it can be found. */
  ghost predicate FindsAll(unicode: Unicode, text: string, query: string) {
    SubsequenceIndices(unicode, text, query).Some? <==> IsEmbedded(unicode, Fold(unicode, query), text)
  }

  /** No character of the alphabet folds to a proper beginning of what another one folds to. */
  ghost predicate PrefixFree(unicode: Unicode, alphabet: set<char>) {
    forall a, b :: a in alphabet && b in alphabet && unicode.lower(a) <= unicode.lower(b) ==>
      unicode.lower(a) == unicode.lower(b)
  }

  ghost predicate Over(text: string, alphabet: set<char>) { forall i :: 0 <= i < |text| ==> text[i] in alphabet }

  lemma FoldOfNone(unicode: Unicode)
    ensures Fold(unicode, []) == []
  {
  }

  lemma FoldCons(unicode: Unicode, text: string)
    requires text != []
    ensures Fold(unicode, text) == unicode.lower(text[0]) + Fold(unicode, text[1..])
  {
    assert text == [text[0]] + text[1..];
    FoldAppend(unicode, [text[0]], text[1..]);
    FoldSnoc(unicode, [], text[0]);
    assert [] + [text[0]] == [text[0]];
  }

  /** Two texts over such an alphabet that fold to a sequence and to a beginning of it read it character
      by character alike. */
  lemma {:induction false} ParsesAgree(unicode: Unicode, alphabet: set<char>, a: string, b: string)
    requires LowersToSomething(unicode) && PrefixFree(unicode, alphabet) && Over(a, alphabet) && Over(b, alphabet)
    requires Fold(unicode, a) <= Fold(unicode, b)
    ensures |a| <= |b| && Fold(unicode, b[..|a|]) == Fold(unicode, a)
    decreases |a|
  {
    hide Fold;
    if a == [] {
      assert b[..0] == [];
      FoldOfNone(unicode);
    } else {
      FoldCons(unicode, a);
      FoldOfNone(unicode);
      assert unicode.lower(a[0]) != [];
      assert b != [];
      FoldCons(unicode, b);
      var x, y := unicode.lower(a[0]), unicode.lower(b[0]);
      SameFirstFold(x, Fold(unicode, a[1..]), y, Fold(unicode, b[1..]));
      assert x == y;
      ParsesAgree(unicode, alphabet, a[1..], b[1..]);
      var matched := b[..|a|];
      FoldCons(unicode, matched);
      assert matched[1..] == b[1..][..|a| - 1];
    }
  }

  lemma SameFirstFold(x: seq<char>, restX: seq<char>, y: seq<char>, restY: seq<char>)
    requires x + restX <= y + restY
    ensures x <= y || y <= x
    ensures x == y ==> restX <= restY
  {
    var whole := y + restY;
    assert x == whole[..|x|] && y == whole[..|y|];
    if x == y { assert restX == (x + restX)[|x|..] && restY == whole[|y|..]; }
  }

  /** Over such an alphabet no part of the needle longer than what the search matched can be picked. */
  lemma {:induction false} GreedyIsMaximal(unicode: Unicode, alphabet: set<char>, needle: seq<char>, text: string,
                                           m: nat, indices: seq<nat>)
    requires LowersToSomething(unicode) && PrefixFree(unicode, alphabet) && Over(text, alphabet) && m <= |needle|
    requires Embeds(unicode, needle[..m], text, indices)
    ensures m <= GreedyRun(unicode, needle, text).matched
    decreases |text|
  {
    if m > 0 {
      assert indices != [] && text != [];
      var n, last := |text| - 1, |indices| - 1;
      var front := text[..n];
      if indices[last] < n {
        assert Pick(front, indices) == Pick(text, indices);
        GreedyIsMaximal(unicode, alphabet, needle, front, m, indices);
      } else {
        var earlier := LastPicked(unicode, needle, text, m, indices);
        GreedyIsMaximal(unicode, alphabet, needle, front, earlier, indices[..last]);
        LastIsTaken(unicode, alphabet, needle, text, m, indices, earlier);
      }
    }
  }

  /** The picks but the last read the needle up to `earlier`, and the last character reads the rest. */
  lemma LastPicked(unicode: Unicode, needle: seq<char>, text: string, m: nat, indices: seq<nat>) returns (earlier: nat)
    requires text != [] && m <= |needle| && Embeds(unicode, needle[..m], text, indices)
    requires indices != [] && indices[|indices| - 1] == |text| - 1
    ensures earlier <= m && needle[earlier..m] == unicode.lower(text[|text| - 1])
    ensures Embeds(unicode, needle[..earlier], text[..|text| - 1], indices[..|indices| - 1])
  {
    var n, last := |text| - 1, |indices| - 1;
    var earlierPicks := Pick(text[..n], indices[..last]);
    assert Pick(text, indices) == earlierPicks + [text[n]];
    FoldSnoc(unicode, earlierPicks, text[n]);
    hide Fold;
    earlier := |Fold(unicode, earlierPicks)|;
    var whole := needle[..m];
    assert whole == Fold(unicode, earlierPicks) + unicode.lower(text[n]);
    assert whole[..earlier] == needle[..earlier] && whole[earlier..] == needle[earlier..m];
  }

  /** The search stands exactly where the last character is needed, or has passed it. */
  lemma {:induction false} LastIsTaken(unicode: Unicode, alphabet: set<char>, needle: seq<char>, text: string, m: nat,
                    indices: seq<nat>, earlier: nat)
    requires LowersToSomething(unicode) && PrefixFree(unicode, alphabet) && Over(text, alphabet)
    requires text != [] && m <= |needle| && earlier <= m && Embeds(unicode, needle[..m], text, indices)
    requires indices != [] && indices[|indices| - 1] == |text| - 1
    requires needle[earlier..m] == unicode.lower(text[|text| - 1])
    requires Embeds(unicode, needle[..earlier], text[..|text| - 1], indices[..|indices| - 1])
    requires earlier <= GreedyRun(unicode, needle, text[..|text| - 1]).matched
    ensures m <= GreedyRun(unicode, needle, text).matched
  {
    hide Fold;
    hide GreedyRun;
    hide GreedyStep;
    hide PrefixFree;
    hide LowersToSomething;
    var n, last := |text| - 1, |indices| - 1;
    var front := text[..n];
    var before := GreedyRun(unicode, needle, front);
    OneMoreRead(unicode, needle, text, n);
    assert text[..n + 1] == text;
    GreedyIsSound(unicode, needle, front);
    if before.matched < m {
      var found, picked := Pick(front, before.indices), Pick(text, indices);
      assert picked[..last] == Pick(front, indices[..last]);
      NoBoundaryBetween(unicode, alphabet, needle, found, picked, before.matched, earlier, m);
    }
    StepReaches(unicode, needle, before, n, text[n], earlier, m);
  }

  lemma StepReaches(unicode: Unicode, needle: seq<char>, before: Greedy, n: nat, c: char, earlier: nat, m: nat)
    requires before.matched <= |needle| && earlier <= m <= |needle| && needle[earlier..m] == unicode.lower(c)
    requires before.matched < m ==> before.matched == earlier
    ensures m <= GreedyStep(unicode, needle, before, n, c).matched
  {
  }

  lemma NoBoundaryBetween(unicode: Unicode, alphabet: set<char>, needle: seq<char>, found: string, picked: string,
                          k: nat, earlier: nat, m: nat)
    requires LowersToSomething(unicode) && PrefixFree(unicode, alphabet)
    requires Over(found, alphabet) && Over(picked, alphabet) && picked != []
    requires earlier <= m <= |needle| && k < m && Fold(unicode, found) == needle[..k]
    requires Fold(unicode, picked) == needle[..m] && Fold(unicode, picked[..|picked| - 1]) == needle[..earlier]
    ensures k <= earlier
  {
    hide Fold;
    assert needle[..k] == needle[..m][..k];
    ParsesAgree(unicode, alphabet, found, picked);
    assert picked[..|picked|] == picked;
    assert |found| <= |picked| - 1;
    FoldMonotone(unicode, picked, |found|, |picked| - 1);
  }

  /** Over characters whose folds are prefix-free the greedy search misses nothing, for any query. */
  lemma GreedyIsComplete(unicode: Unicode, alphabet: set<char>, text: string, query: string)
    requires LowersToSomething(unicode) && PrefixFree(unicode, alphabet) && Over(text, alphabet)
    ensures FindsAll(unicode, text, query)
  {
    var needle := Fold(unicode, query);
    var state := GreedyRun(unicode, needle, text);
    hide Fold;
    hide GreedyRun;
    assert needle[..|needle|] == needle;
    GreedyIsSound(unicode, needle, text);
    forall indices: seq<nat> | Embeds(unicode, needle, text, indices)
      ensures state.matched == |needle|
    {
      GreedyIsMaximal(unicode, alphabet, needle, text, |needle|, indices);
    }
    if state.matched == |needle| {
      assert Embeds(unicode, needle, text, state.indices);
    }
  }

  /** In front of a character with a longer fold, one with a beginning of this fold takes its place. */
  lemma LongerFoldIsMissed(unicode: Unicode, a: char, b: char)
    requires unicode.lower(a) < unicode.lower(b) && unicode.lower(a) != []
    ensures SubsequenceIndices(unicode, [a, b], [b]) == None
    ensures Embeds(unicode, Fold(unicode, [b]), [a, b], [1]) && !FindsAll(unicode, [a, b], [b])
  {
    var needle, short := unicode.lower(b), unicode.lower(a);
    FoldSnoc(unicode, [], b);
    assert [] + [b] == [b];
    assert Fold(unicode, [b]) == needle;
    assert Pick([a, b], [1]) == [b];
    assert [a, b][..1] == [a] && [a][..0] == [];
    assert needle[0..|short|] == short;
    assert GreedyRun(unicode, needle, [a]) == Greedy([0], |short|) by { assert [] + [0] == [0]; }
    assert GreedyRun(unicode, needle, [a, b]) == Greedy([0], |short|);
    var second: seq<nat> := [1];
    assert Embeds(unicode, Fold(unicode, [b]), [a, b], second);
  }

  /** The greedy search finds every query in every text over an alphabet if and only if the folds of its
      characters are prefix-free. */
  lemma GreedyIsCompleteExactly(unicode: Unicode, alphabet: set<char>)
    requires LowersToSomething(unicode)
    ensures PrefixFree(unicode, alphabet)
            <==> forall text, query :: Over(text, alphabet) ==> FindsAll(unicode, text, query)
  {
    if PrefixFree(unicode, alphabet) {
      forall text, query | Over(text, alphabet)
        ensures FindsAll(unicode, text, query)
      {
        GreedyIsComplete(unicode, alphabet, text, query);
      }
    } else {
      var a, b :| a in alphabet && b in alphabet
                  && unicode.lower(a) <= unicode.lower(b) && unicode.lower(a) != unicode.lower(b);
      LongerFoldIsMissed(unicode, a, b);
      assert Over([a, b], alphabet);
    }
  }

  /** The capital I with a dot lowercases to an i and a combining dot. Behind a plain i it is missed. */
  lemma GreedyCanMiss(unicode: Unicode)
    requires unicode.lower('i') == ['i'] && unicode.lower('\U{0130}') == ['i', '\U{0307}']
    ensures SubsequenceIndices(unicode, ['i', '\U{0130}'], ['\U{0130}']) == None
    ensures Embeds(unicode, Fold(unicode, ['\U{0130}']), ['i', '\U{0130}'], [1])
    ensures SubsequenceIndices(unicode, ['\U{0130}'], ['\U{0130}']) == Some([0])
  {
    LongerFoldIsMissed(unicode, 'i', '\U{0130}');
    var needle := unicode.lower('\U{0130}');
    FoldSnoc(unicode, [], '\U{0130}');
    assert [] + ['\U{0130}'] == ['\U{0130}'];
    assert needle[0..2] == needle == Fold(unicode, ['\U{0130}']);
    assert GreedyRun(unicode, needle, ['\U{0130}']) == Greedy([0], 2) by {
      assert ['\U{0130}'][..0] == [] && [] + [0] == [0];
    }
  }

  // ----- folds of one character -----

  ghost predicate FoldsOneToOne(unicode: Unicode, text: string) {
    forall i :: 0 <= i < |text| ==> |unicode.lower(text[i])| == 1
  }

  lemma {:induction false} OneToOneFold(unicode: Unicode, text: string)
    requires FoldsOneToOne(unicode, text)
    ensures |Fold(unicode, text)| == |text|
    ensures forall i :: 0 <= i < |text| ==> unicode.lower(text[i]) == [Fold(unicode, text)[i]]
  {
    if text != [] {
      var n := |text| - 1;
      assert FoldsOneToOne(unicode, text[..n]);
      OneToOneFold(unicode, text[..n]);
      forall i | 0 <= i < |text|
        ensures unicode.lower(text[i]) == [Fold(unicode, text)[i]]
      {
        if i < n { assert text[..n][i] == text[i]; }
      }
    }
  }

  /** The indices pick the needle out of the folded text. */
  ghost predicate PicksFolded(needle: seq<char>, folded: seq<char>, indices: seq<nat>) {
    && |indices| == |needle|
    && Ascends(indices, |folded|)
    && forall i :: 0 <= i < |needle| ==> folded[indices[i]] == needle[i]
  }

  ghost predicate IsFoldedSubsequence(needle: seq<char>, folded: seq<char>) {
    exists indices: seq<nat> :: PicksFolded(needle, folded, indices)
  }

  /** Where every character folds to one, the search finds exactly the subsequences of the folded text. */
  lemma GreedyFindsFoldedSubsequences(unicode: Unicode, text: string, query: string)
    requires LowersToSomething(unicode) && FoldsOneToOne(unicode, text)
    ensures SubsequenceIndices(unicode, text, query).Some?
            <==> IsFoldedSubsequence(Fold(unicode, query), Fold(unicode, text))
  {
    var needle, folded := Fold(unicode, query), Fold(unicode, text);
    var alphabet := set i | 0 <= i < |text| :: text[i];
    hide Fold;
    hide SubsequenceIndices;
    OneToOneIsPrefixFree(unicode, text, alphabet);
    hide PrefixFree;
    hide FoldsOneToOne;
    GreedyIsComplete(unicode, alphabet, text, query);
    forall indices: seq<nat>
      ensures Embeds(unicode, needle, text, indices) <==> PicksFolded(needle, folded, indices)
    {
      PicksAreEmbeddings(unicode, needle, text, indices);
    }
    hide Embeds;
    hide PicksFolded;
  }

  lemma OneToOneIsPrefixFree(unicode: Unicode, text: string, alphabet: set<char>)
    requires FoldsOneToOne(unicode, text) && alphabet == set i | 0 <= i < |text| :: text[i]
    ensures PrefixFree(unicode, alphabet) && Over(text, alphabet)
  {
  }

  lemma PicksAreEmbeddings(unicode: Unicode, needle: seq<char>, text: string, indices: seq<nat>)
    requires FoldsOneToOne(unicode, text)
    ensures Embeds(unicode, needle, text, indices) <==> PicksFolded(needle, Fold(unicode, text), indices)
  {
    OneToOneFold(unicode, text);
    if Ascends(indices, |text|) {
      var picked := Pick(text, indices);
      OneToOneFold(unicode, picked);
      hide Fold;
      assert forall i :: 0 <= i < |indices| ==> [Fold(unicode, picked)[i]] == [Fold(unicode, text)[indices[i]]];
      assert PicksFolded(needle, Fold(unicode, text), indices) ==> Fold(unicode, picked) == needle;
    }
  }

  // ----- spans -----

  datatype Span = Span(content: string, highlighted: bool)

  function Content(spans: seq<Span>): string {
    if spans == [] then [] else Content(spans[..|spans| - 1]) + spans[|spans| - 1].content
  }

  /** Which characters of the content are highlighted. */
  function Flags(spans: seq<Span>): seq<bool> {
    if spans == [] then []
    else
      var last := spans[|spans| - 1];
      Flags(spans[..|spans| - 1]) + seq(|last.content|, _ => last.highlighted)
  }

  lemma AddSpan(spans: seq<Span>, span: Span)
    ensures Content(spans + [span]) == Content(spans) + span.content
    ensures Flags(spans + [span]) == Flags(spans) + seq(|span.content|, _ => span.highlighted)
  {
    assert (spans + [span])[..|spans|] == spans;
  }

  type Range = (nat, nat)

  /** Nonempty ranges in order, with a gap between neighbours. */
  ghost predicate Separated(ranges: seq<Range>, bound: nat) {
    && (forall i :: 0 <= i < |ranges| ==> ranges[i].0 < ranges[i].1 <= bound)
    && forall i, j :: 0 <= i < j < |ranges| ==> ranges[i].1 < ranges[j].0
  }

  ghost predicate Covered(ranges: seq<Range>, p: nat) {
    exists i :: 0 <= i < |ranges| && ranges[i].0 <= p < ranges[i].1
  }

  /** No span is empty and the style changes at every border. */
  ghost predicate Alternates(spans: seq<Span>) {
    && (forall i :: 0 <= i < |spans| ==> spans[i].content != [])
    && forall i, j :: 0 <= i && j == i + 1 < |spans| ==> spans[i].highlighted != spans[j].highlighted
  }

  lemma {:induction false} PlainText(text: string)
    ensures Content([Span(text, false)]) == text
    ensures |Flags([Span(text, false)])| == |text| && forall p :: 0 <= p < |text| ==> !Flags([Span(text, false)])[p]
  {
    AddSpan([], Span(text, false));
    assert [] + [Span(text, false)] == [Span(text, false)];
  }

  /** The spans built so far show `text[..cursor]` under the given ranges. */
  ghost predicate ShowsUpTo(spans: seq<Span>, text: string, ranges: seq<Range>, cursor: nat) {
    && cursor <= |text| && Content(spans) == text[..cursor] && |Flags(spans)| == cursor
    && forall p :: 0 <= p < cursor ==> (Flags(spans)[p] <==> Covered(ranges, p))
  }

  /** Nothing at or behind `cursor` is covered yet. */
  ghost predicate EndsBefore(ranges: seq<Range>, cursor: nat) {
    forall i :: 0 <= i < |ranges| ==> ranges[i].1 <= cursor
  }

  lemma PlainStep(spans: seq<Span>, text: string, ranges: seq<Range>, cursor: nat, next: nat)
    requires ShowsUpTo(spans, text, ranges, cursor) && EndsBefore(ranges, cursor) && cursor <= next <= |text|
    ensures ShowsUpTo(spans + [Span(text[cursor..next], false)], text, ranges, next)
  {
    AddSpan(spans, Span(text[cursor..next], false));
    assert text[..cursor] + text[cursor..next] == text[..next];
    hide Content;
    hide Flags;
  }

  lemma RangeStep(spans: seq<Span>, text: string, ranges: seq<Range>, range: Range)
    requires ShowsUpTo(spans, text, ranges, range.0) && EndsBefore(ranges, range.0) && range.0 < range.1 <= |text|
    ensures ShowsUpTo(spans + [Span(text[range.0..range.1], true)], text, ranges + [range], range.1)
  {
    AddSpan(spans, Span(text[range.0..range.1], true));
    CoveredWith(ranges, range);
    assert text[..range.0] + text[range.0..range.1] == text[..range.1];
    hide Content;
    hide Flags;
    hide Covered;
  }

  method HighlightedCharRangesSpans(text: string, ranges: seq<Range>) returns (spans: seq<Span>)
    requires Separated(ranges, |text|)
    ensures Content(spans) == text
    ensures |Flags(spans)| == |text| && forall p :: 0 <= p < |text| ==> (Flags(spans)[p] <==> Covered(ranges, p))
    ensures text != [] ==> Alternates(spans)
  {
    hide Content;
    hide Flags;
    hide Covered;
    if ranges == [] {
      PlainText(text);
      NothingCovered();
      return [Span(text, false)];
    }
    spans := [];
    var cursor: nat := 0;
    var n := 0;
    NothingShown(text);
    while n < |ranges|
      invariant 0 <= n <= |ranges| && cursor == if n == 0 then 0 else ranges[n - 1].1
      invariant ShowsUpTo(spans, text, ranges[..n], cursor)
      invariant Alternates(spans) && (if n == 0 then spans == [] else spans != [] && spans[|spans| - 1].highlighted)
    {
      var (start, end) := ranges[n];
      if cursor < start {
        PlainStep(spans, text, ranges[..n], cursor, start);
        spans := spans + [Span(text[cursor..start], false)];
      }
      RangeStep(spans, text, ranges[..n], ranges[n]);
      spans := spans + [Span(text[start..end], true)];
      assert ranges[..n + 1] == ranges[..n] + [ranges[n]];
      cursor := end;
      n := n + 1;
    }
    assert ranges[..n] == ranges;
    assert EndsBefore(ranges, cursor);
    if cursor < |text| {
      PlainStep(spans, text, ranges, cursor, |text|);
      assert text[cursor..|text|] == text[cursor..];
      spans := spans + [Span(text[cursor..], false)];
    }
    assert text[..|text|] == text;
  }

  lemma NothingCovered()
    ensures forall p: nat :: !Covered([], p)
  {
  }

  lemma NothingShown(text: string)
    ensures ShowsUpTo([], text, [], 0)
  {
  }

  method ContiguousRanges(indices: seq<nat>, ghost bound: nat) returns (ranges: seq<Range>)
    requires Ascends(indices, bound)
    ensures Separated(ranges, bound)
    ensures forall p: nat :: Covered(ranges, p) <==> p in indices
  {
    hide Covered;
    NothingCovered();
    if indices == [] { return []; }
    ranges := [];
    var rangeStart: nat, previous: nat := indices[0], indices[0];
    var n := 1;
    while n < |indices|
      invariant 1 <= n <= |indices| && previous == indices[n - 1] && rangeStart <= previous
      invariant Separated(ranges, rangeStart)
      invariant forall i :: 0 <= i < |ranges| ==> ranges[i].1 < rangeStart
      invariant forall p: nat :: (Covered(ranges, p) || rangeStart <= p <= previous) <==> p in indices[..n]
    {
      var index := indices[n];
      assert indices[..n + 1] == indices[..n] + [index];
      if index == previous + 1 {
        previous := index;
      } else {
        CoveredWith(ranges, (rangeStart, previous + 1));
        ranges := ranges + [(rangeStart, previous + 1)];
        rangeStart, previous := index, index;
      }
      n := n + 1;
    }
    assert indices[..n] == indices;
    CoveredWith(ranges, (rangeStart, previous + 1));
    ranges := ranges + [(rangeStart, previous + 1)];
  }

  lemma CoveredWith(ranges: seq<Range>, range: Range)
    ensures forall p: nat :: Covered(ranges + [range], p) <==> Covered(ranges, p) || range.0 <= p < range.1
  {
    var longer := ranges + [range];
    forall p: nat
      ensures Covered(longer, p) <==> Covered(ranges, p) || range.0 <= p < range.1
    {
      if i :| 0 <= i < |ranges| && ranges[i].0 <= p < ranges[i].1 {
        assert longer[i] == ranges[i];
      }
      if range.0 <= p < range.1 {
        assert longer[|ranges|] == range;
      }
    }
  }

  // ----- the highlighted texts -----

  /** The spans read as the text and highlight exactly one match range. */
  ghost predicate ShowsMatch(unicode: Unicode, spans: seq<Span>, text: string, needle: string) {
    exists start: nat, end: nat :: IsMatchRange(unicode, text, needle, start, end) && ShowsOnly(spans, text, start, end)
  }

  ghost predicate ShowsOnly(spans: seq<Span>, text: string, start: nat, end: nat) {
    && Content(spans) == text && |Flags(spans)| == |text|
    && forall p :: 0 <= p < |text| ==> (Flags(spans)[p] <==> start <= p < end)
  }

  ghost predicate ShowsIndices(spans: seq<Span>, text: string, indices: seq<nat>) {
    && Content(spans) == text && |Flags(spans)| == |text|
    && forall p :: 0 <= p < |text| ==> (Flags(spans)[p] <==> p in indices)
  }

  method HighlightedSubstringSpans(unicode: Unicode, text: string, query: string) returns (spans: seq<Span>)
    ensures Content(spans) == text
    ensures var needle := Trim(unicode, query);
      if HasHighlight(unicode, text, needle) then ShowsMatch(unicode, spans, text, needle)
      else ShowsIndices(spans, text, [])
  {
    var needle := Trim(unicode, query);
    PlainText(text);
    if needle == [] { return [Span(text, false)]; }
    var range := FindCaseInsensitiveSubstring(unicode, text, needle);
    match range {
      case None => return [Span(text, false)];
      case Some((start, end)) => spans := MatchSpans(unicode, text, needle, start, end);
    }
  }

  method MatchSpans(unicode: Unicode, text: string, ghost needle: string, start: nat, end: nat)
    returns (spans: seq<Span>)
    requires IsMatchRange(unicode, text, needle, start, end) && start < end <= |text|
    ensures Content(spans) == text && ShowsMatch(unicode, spans, text, needle)
  {
    spans := HighlightedCharRangesSpans(text, [(start, end)]);
    CoveredWith([], (start, end));
    assert [] + [(start, end)] == [(start, end)];
    assert ShowsOnly(spans, text, start, end);
  }

  function Indices(unicode: Unicode, text: string, needle: string): seq<nat> {
    match SubsequenceIndices(unicode, text, needle)
    case Some(indices) => indices
    case None => []
  }

  method HighlightedSubsequenceSpans(unicode: Unicode, text: string, query: string) returns (spans: seq<Span>)
    ensures Content(spans) == text
    ensures ShowsIndices(spans, text, Indices(unicode, text, Trim(unicode, query)))
  {
    var needle := Trim(unicode, query);
    PlainText(text);
    if needle == [] {
      NothingLeft(unicode, [], text, 0);
      return [Span(text, false)];
    }
    var indices := FindCaseInsensitiveSubsequenceIndices(unicode, text, needle);
    match indices {
      case None => return [Span(text, false)];
      case Some(found) =>
        GreedyIsSound(unicode, Fold(unicode, needle), text);
        var ranges := ContiguousRanges(found, |text|);
        spans := HighlightedCharRangesSpans(text, ranges);
    }
  }

  method HighlightedSubstringOrSubsequenceSpans(unicode: Unicode, text: string, query: string)
    returns (spans: seq<Span>)
    ensures Content(spans) == text
    ensures var needle := Trim(unicode, query);
      if HasHighlight(unicode, text, needle) then ShowsMatch(unicode, spans, text, needle)
      else ShowsIndices(spans, text, Indices(unicode, text, needle))
  {
    var needle := Trim(unicode, query);
    PlainText(text);
    if needle == [] {
      NothingLeft(unicode, [], text, 0);
      return [Span(text, false)];
    }
    var range := FindCaseInsensitiveSubstring(unicode, text, needle);
    match range {
      case Some((start, end)) => spans := MatchSpans(unicode, text, needle, start, end);
      case None =>
        TrimIdempotent(unicode, query);
        spans := HighlightedSubsequenceSpans(unicode, text, needle);
    }
  }
}
