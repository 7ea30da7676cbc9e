/** Knuth-Morris-Pratt search: the border table, filled in place, and the scan that uses it. */
module Kmp {
  import opened Folding

  // ----- borders -----

  /** The first `b` elements of `p[..n]` are also its last `b`. */
  ghost predicate Border(p: seq<char>, n: nat, b: nat) {
    b < n <= |p| && p[..b] == p[n - b..n]
  }

  ghost predicate LongestBorder(p: seq<char>, n: nat, b: nat) {
    Border(p, n, b) && forall c: nat :: Border(p, n, c) ==> c <= b
  }

  ghost predicate BorderTable(p: seq<char>, table: seq<nat>, n: nat) {
    && n <= |table| == |p|
    && forall i :: 0 <= i < n ==> LongestBorder(p, i + 1, table[i])
  }

  lemma BorderOfBorder(p: seq<char>, n: nat, b: nat, c: nat)
    requires Border(p, n, b) && Border(p, n, c) && c < b
    ensures Border(p, b, c)
  {
    assert p[n - b..n][b - c..] == p[n - c..n];
    assert p[..b][b - c..] == p[b - c..b];
  }

  lemma BorderInBorder(p: seq<char>, n: nat, b: nat, c: nat)
    requires Border(p, n, b) && Border(p, b, c)
    ensures Border(p, n, c)
  {
    assert p[n - b..n][b - c..] == p[n - c..n];
    assert p[..b][b - c..] == p[b - c..b];
  }

  lemma BorderGrows(p: seq<char>, n: nat, b: nat)
    requires b < n < |p|
    ensures Border(p, n + 1, b + 1) <==> Border(p, n, b) && p[b] == p[n]
  {
    assert p[..b + 1] == p[..b] + [p[b]];
    assert p[n - b..n + 1] == p[n - b..n] + [p[n]];
    if Border(p, n + 1, b + 1) {
      assert p[..b + 1][..b] == p[n - b..n + 1][..b];
    }
  }

  /** No border longer than `matched` continues with `p[n]`. */
  ghost predicate NoLongerBorder(p: seq<char>, n: nat, matched: nat)
    requires n < |p|
  {
    forall c: nat :: Border(p, n, c) && matched < c ==> p[c] != p[n]
  }

  lemma FallBack(p: seq<char>, n: nat, matched: nat, shorter: nat)
    requires n < |p| && 0 < matched && Border(p, n, matched) && NoLongerBorder(p, n, matched)
    requires p[matched] != p[n] && LongestBorder(p, matched, shorter)
    ensures shorter < matched && Border(p, n, shorter) && NoLongerBorder(p, n, shorter)
  {
    BorderInBorder(p, n, matched, shorter);
    forall c: nat | Border(p, n, c) && shorter < c
      ensures p[c] != p[n]
    {
      if c < matched {
        BorderOfBorder(p, n, matched, c);
      }
    }
  }

  lemma NextBorder(p: seq<char>, n: nat, matched: nat)
    requires 0 < n < |p| && Border(p, n, matched) && NoLongerBorder(p, n, matched)
    requires matched == 0 || p[matched] == p[n]
    ensures LongestBorder(p, n + 1, if p[matched] == p[n] then matched + 1 else 0)
  {
    BorderGrows(p, n, matched);
    var longer := n + 1;
    forall c: nat | Border(p, longer, c)
      ensures c <= if p[matched] == p[n] then matched + 1 else 0
    {
      if c > 0 { BorderGrows(p, n, c - 1); }
    }
  }

  lemma LongestIsNotLonger(p: seq<char>, n: nat, matched: nat)
    requires n < |p| && LongestBorder(p, n, matched)
    ensures matched < n && Border(p, n, matched) && NoLongerBorder(p, n, matched)
  {
  }

  lemma FirstBorder(p: seq<char>)
    requires p != []
    ensures LongestBorder(p, 1, 0)
  {
  }

  lemma TableGrows(p: seq<char>, table: seq<nat>, grown: seq<nat>, n: nat)
    requires n < |p| == |table| == |grown| && BorderTable(p, table, n) && LongestBorder(p, n + 1, grown[n])
    requires forall i :: 0 <= i < n ==> grown[i] == table[i]
    ensures BorderTable(p, grown, n + 1)
  {
  }

  method PrefixLengths(needle: seq<char>) returns (prefixLengths: array<nat>)
    ensures BorderTable(needle, prefixLengths[..], |needle|)
  {
    prefixLengths := new nat[|needle|](_ => 0);
    var matched: nat := 0;
    if |needle| > 0 { FirstBorder(needle); }
    hide Border;
    hide LongestBorder;
    hide NoLongerBorder;
    var index := 1;
    while index < |needle|
      invariant 1 <= index && (needle == [] || index <= |needle|)
      invariant prefixLengths.Length == |needle|
      invariant needle != [] ==> BorderTable(needle, prefixLengths[..], index)
      invariant needle != [] ==> matched == prefixLengths[index - 1]
      invariant forall i :: index <= i < |needle| ==> prefixLengths[i] == 0
    {
      ghost var table := prefixLengths[..];
      assert LongestBorder(needle, index, table[index - 1]);
      LongestIsNotLonger(needle, index, matched);
      while matched > 0 && needle[matched] != needle[index]
        invariant matched < index && Border(needle, index, matched) && NoLongerBorder(needle, index, matched)
        invariant prefixLengths[..] == table
        decreases matched
      {
        assert LongestBorder(needle, matched, table[matched - 1]);
        FallBack(needle, index, matched, table[matched - 1]);
        matched := prefixLengths[matched - 1];
      }
      NextBorder(needle, index, matched);
      if needle[matched] == needle[index] {
        matched := matched + 1;
        prefixLengths[index] := matched;
      }
      TableGrows(needle, table, prefixLengths[..], index);
      index := index + 1;
    }
  }

  // ----- scanning -----

  /** The haystack read so far ends with the first `k` elements of the needle. */
  ghost predicate EndsWith(read: seq<char>, needle: seq<char>, k: nat) {
    k <= |needle| && k <= |read| && read[|read| - k..] == needle[..k]
  }

  ghost predicate LongestEnd(read: seq<char>, needle: seq<char>, k: nat) {
    EndsWith(read, needle, k) && forall j: nat :: EndsWith(read, needle, j) ==> j <= k
  }

  /** No longer beginning of the needle can continue with `c`. */
  ghost predicate NoLongerEnd(read: seq<char>, needle: seq<char>, k: nat, c: char) {
    forall j: nat :: EndsWith(read, needle, j) && k < j < |needle| ==> needle[j] != c
  }

  lemma EndsAndBorders(read: seq<char>, needle: seq<char>, k: nat, j: nat)
    requires EndsWith(read, needle, k) && j < k
    ensures EndsWith(read, needle, j) <==> Border(needle, k, j)
  {
    assert read[|read| - k..][k - j..] == read[|read| - j..];
    assert needle[..k][k - j..] == needle[k - j..k];
  }

  lemma FallBackEnd(read: seq<char>, needle: seq<char>, k: nat, shorter: nat, c: char)
    requires 0 < k < |needle| && EndsWith(read, needle, k) && NoLongerEnd(read, needle, k, c)
    requires needle[k] != c && LongestBorder(needle, k, shorter)
    ensures shorter < k && EndsWith(read, needle, shorter) && NoLongerEnd(read, needle, shorter, c)
  {
    EndsAndBorders(read, needle, k, shorter);
    forall j: nat | EndsWith(read, needle, j) && shorter < j < |needle|
      ensures needle[j] != c
    {
      if j < k { EndsAndBorders(read, needle, k, j); }
    }
  }

  lemma EndGrows(read: seq<char>, needle: seq<char>, k: nat, c: char)
    requires k < |needle|
    ensures EndsWith(read + [c], needle, k + 1) <==> EndsWith(read, needle, k) && needle[k] == c
  {
    var longer := read + [c];
    assert needle[..k + 1] == needle[..k] + [needle[k]];
    if k <= |read| {
      assert longer[|longer| - (k + 1)..] == read[|read| - k..] + [c];
      if EndsWith(longer, needle, k + 1) {
        assert (read[|read| - k..] + [c])[..k] == (needle[..k] + [needle[k]])[..k];
        assert (read[|read| - k..] + [c])[k] == (needle[..k] + [needle[k]])[k];
      }
    }
  }

  lemma NextEnd(read: seq<char>, needle: seq<char>, k: nat, c: char)
    requires k < |needle| && EndsWith(read, needle, k) && NoLongerEnd(read, needle, k, c)
    requires !EndsWith(read, needle, |needle|)
    requires k == 0 || needle[k] == c
    ensures LongestEnd(read + [c], needle, if needle[k] == c then k + 1 else 0)
  {
    EndGrows(read, needle, k, c);
    forall j: nat | EndsWith(read + [c], needle, j)
      ensures j <= if needle[k] == c then k + 1 else 0
    {
      if j > 0 { EndGrows(read, needle, j - 1, c); }
    }
  }

  lemma LongestEndMeaning(read: seq<char>, needle: seq<char>, k: nat, c: char)
    requires LongestEnd(read, needle, k) && k < |needle|
    ensures EndsWith(read, needle, k) && NoLongerEnd(read, needle, k, c) && !EndsWith(read, needle, |needle|)
  {
  }

  lemma LongestEndEnds(read: seq<char>, needle: seq<char>, k: nat)
    requires LongestEnd(read, needle, k)
    ensures EndsWith(read, needle, k)
  {
  }

  lemma NothingRead(needle: seq<char>)
    requires needle != []
    ensures LongestEnd([], needle, 0) && !Occurs(needle, [])
  {
  }

  /** The needle occurs in the longer text for the first time exactly when the text ends with it. */
  lemma OccursWithLast(read: seq<char>, needle: seq<char>, c: char)
    requires needle != [] && !Occurs(needle, read)
    ensures Occurs(needle, read + [c]) <==> EndsWith(read + [c], needle, |needle|)
  {
    var longer := read + [c];
    if Occurs(needle, longer) {
      var i :| 0 <= i <= |longer| && OccursAt(needle, longer, i);
      if i + |needle| <= |read| {
        assert longer[i..i + |needle|] == read[i..i + |needle|];
        assert OccursAt(needle, read, i);
      }
      assert longer[i..] == longer[i..i + |needle|];
    }
    if EndsWith(longer, needle, |needle|) {
      var i := |longer| - |needle|;
      assert longer[i..i + |needle|] == longer[i..];
      assert OccursAt(needle, longer, i);
    }
  }

  lemma OccursInMore(needle: seq<char>, haystack: seq<char>, n: nat)
    requires n <= |haystack| && Occurs(needle, haystack[..n])
    ensures Occurs(needle, haystack)
  {
    var i :| 0 <= i <= n && OccursAt(needle, haystack[..n], i);
    assert haystack[..n][i..i + |needle|] == haystack[i..i + |needle|];
    assert OccursAt(needle, haystack, i);
  }

  lemma NothingOccurs(haystack: seq<char>)
    ensures Occurs([], haystack)
  {
    assert OccursAt([], haystack, 0);
  }

  /** Scans once from left to right. `read` counts the elements looked at and `fallbacks` the steps back
      through the table. */
  method Contains(needle: seq<char>, prefixLengths: seq<nat>, haystack: seq<char>)
    returns (found: bool, ghost read: nat, ghost fallbacks: nat)
    requires BorderTable(needle, prefixLengths, |needle|)
    ensures found <==> Occurs(needle, haystack)
    ensures fallbacks <= read <= |haystack|
  {
    hide EndsWith;
    hide LongestEnd;
    hide NoLongerEnd;
    hide Occurs;
    hide Border;
    hide NoLongerBorder;
    read, fallbacks := 0, 0;
    if needle == [] {
      NothingOccurs(haystack);
      return true, read, fallbacks;
    }
    NothingRead(needle);
    assert haystack[..0] == [];
    var matched: nat := 0;
    var index := 0;
    while index < |haystack|
      invariant 0 <= index <= |haystack| && read == index
      invariant matched < |needle| && LongestEnd(haystack[..index], needle, matched)
      invariant !Occurs(needle, haystack[..index])
      invariant fallbacks + matched <= index
    {
      var character := haystack[index];
      read := index + 1;
      ghost var before := haystack[..index];
      assert haystack[..index + 1] == before + [character];
      LongestEndMeaning(before, needle, matched, character);
      while matched > 0 && needle[matched] != character
        invariant matched < |needle| && EndsWith(before, needle, matched)
        invariant NoLongerEnd(before, needle, matched, character)
        invariant fallbacks + matched <= index
        decreases matched
      {
        assert LongestBorder(needle, matched, prefixLengths[matched - 1]);
        FallBackEnd(before, needle, matched, prefixLengths[matched - 1], character);
        matched := prefixLengths[matched - 1];
        fallbacks := fallbacks + 1;
      }
      NextEnd(before, needle, matched, character);
      OccursWithLast(before, needle, character);
      if needle[matched] == character {
        matched := matched + 1;
        if matched == |needle| {
          assert EndsWith(before + [character], needle, matched) by {
            LongestEndEnds(before + [character], needle, matched);
          }
          OccursInMore(needle, haystack, index + 1);
          return true, read, fallbacks;
        }
      }
      assert !EndsWith(before + [character], needle, |needle|) by {
        LongestEndMeaning(before + [character], needle, matched, character);
      }
      index := index + 1;
    }
    assert haystack[..index] == haystack;
    found := false;
  }
}
