/** Natural text order: runs of ASCII digits compare as numbers, everything else by character up to
    ASCII case. */
module NaturalSort {
  import opened Numbers
  import opened Wrappers
  import opened TextSearch
  import opened TextOrder

  predicate IsDigit(c: char) { '0' <= c <= '9' }

  predicate AllDigits(text: string) { forall i :: 0 <= i < |text| ==> IsDigit(text[i]) }

  // ----- the order, on tokens -----

  /** A maximal run of digits, or one other character in lower case. */
  datatype Token = Number(digits: string) | Letter(character: char)

  predicate WellFormed(token: Token) {
    match token
    case Number(digits) => digits != [] && AllDigits(digits)
    case Letter(c) => !IsDigit(c)
  }

  function DigitRun(text: string): (n: nat)
    ensures n <= |text| && AllDigits(text[..n])
    ensures n < |text| ==> !IsDigit(text[n])
  {
    if text != [] && IsDigit(text[0]) then
      var n := DigitRun(text[1..]);
      assert text[..n + 1] == [text[0]] + text[1..][..n];
      n + 1
    else 0
  }

  function Tokens(text: string): seq<Token>
    decreases |text|
  {
    if text == [] then []
    else if IsDigit(text[0]) then [Number(text[..DigitRun(text)])] + Tokens(text[DigitRun(text)..])
    else [Letter(AsciiLower(text[0]))] + Tokens(text[1..])
  }

  function Pow10(n: nat): nat { if n == 0 then 1 else 10 * Pow10(n - 1) }

  function Digit(c: char): nat
    requires IsDigit(c)
  {
    c as int - '0' as int
  }

  /** The number a run of digits denotes. */
  function Value(digits: string): nat
    requires AllDigits(digits)
  {
    if digits == [] then 0 else Digit(digits[0]) * Pow10(|digits| - 1) + Value(digits[1..])
  }

  /** By numeric value, then by the number of leading zeros. */
  function CompareNumbers(a: string, b: string): Ordering
    requires AllDigits(a) && AllDigits(b)
  {
    CompareInts(Value(a), Value(b)).Then(CompareInts(|a|, |b|))
  }

  function First(token: Token): int
    requires WellFormed(token)
  {
    match token
    case Number(digits) => digits[0] as int
    case Letter(c) => c as int
  }

  function CompareTokens(a: Token, b: Token): Ordering
    requires WellFormed(a) && WellFormed(b)
  {
    if a.Number? && b.Number? then CompareNumbers(a.digits, b.digits) else CompareInts(First(a), First(b))
  }

  predicate AllWellFormed(tokens: seq<Token>) { forall i :: 0 <= i < |tokens| ==> WellFormed(tokens[i]) }

  function CompareAll(a: seq<Token>, b: seq<Token>): Ordering
    requires AllWellFormed(a) && AllWellFormed(b)
  {
    if a == [] || b == [] then CompareInts(|a|, |b|)
    else CompareTokens(a[0], b[0]).Then(CompareAll(a[1..], b[1..]))
  }

  lemma {:induction false} TokensAreWellFormed(text: string)
    ensures AllWellFormed(Tokens(text))
    decreases |text|
  {
    if text != [] {
      TokensAreWellFormed(if IsDigit(text[0]) then text[DigitRun(text)..] else text[1..]);
    }
  }

  function NaturalCompare(left: string, right: string): Ordering {
    TokensAreWellFormed(left);
    TokensAreWellFormed(right);
    CompareAll(Tokens(left), Tokens(right))
  }

  // ----- digit strings as numbers -----

  function StripZeros(digits: string): string {
    if digits != [] && digits[0] == '0' then StripZeros(digits[1..]) else digits
  }

  lemma {:induction false} ValueIsBounded(digits: string)
    requires AllDigits(digits)
    ensures Value(digits) < Pow10(|digits|)
    ensures digits != [] && digits[0] != '0' ==> Pow10(|digits| - 1) <= Value(digits)
  {
    if digits != [] {
      ValueIsBounded(digits[1..]);
      DigitTimes(Digit(digits[0]), Pow10(|digits| - 1));
    }
  }

  lemma DigitTimes(d: nat, p: nat)
    requires d <= 9
    ensures d * p <= 9 * p && (d > 0 ==> p <= d * p)
  {
  }

  lemma {:induction false} Pow10Grows(m: nat, n: nat)
    requires m <= n
    ensures Pow10(m) <= Pow10(n)
  {
    if m < n { Pow10Grows(m, n - 1); }
  }

  lemma {:induction false} StrippedHasTheValue(digits: string)
    requires AllDigits(digits)
    ensures var stripped := StripZeros(digits);
      AllDigits(stripped) && Value(stripped) == Value(digits) && (stripped != [] ==> stripped[0] != '0')
  {
    if digits != [] && digits[0] == '0' {
      StrippedHasTheValue(digits[1..]);
    }
  }

  /** Digit strings of one length compare as their values do. */
  lemma {:induction false} SameLengthComparesByValue(a: string, b: string)
    requires AllDigits(a) && AllDigits(b) && |a| == |b|
    ensures CompareStrings(a, b) == CompareInts(Value(a), Value(b))
    ensures CompareStrings(a, b) == Equal <==> a == b
  {
    if a != [] {
      SameLengthComparesByValue(a[1..], b[1..]);
      ValueIsBounded(a[1..]);
      ValueIsBounded(b[1..]);
      LeadingDigitDecides(Digit(a[0]), Value(a[1..]), Digit(b[0]), Value(b[1..]), Pow10(|a| - 1));
      assert a == [a[0]] + a[1..] && b == [b[0]] + b[1..];
    }
  }

  lemma LeadingDigitDecides(x: nat, u: nat, y: nat, v: nat, p: nat)
    requires u < p && v < p
    ensures x < y ==> x * p + u < y * p + v
    ensures y < x ==> y * p + v < x * p + u
  {
    if x < y {
      assert (x + 1) * p <= y * p;
    } else if y < x {
      assert (y + 1) * p <= x * p;
    }
  }

  /** What the comparison reads off two digit runs: significant length, significant digits, length. */
  function CompareRuns(a: string, b: string): Ordering {
    CompareInts(|StripZeros(a)|, |StripZeros(b)|)
    .Then(CompareStrings(StripZeros(a), StripZeros(b)))
    .Then(CompareInts(|a|, |b|))
  }

  /** Without computing a value, it orders runs of any length by value. */
  lemma RunsCompareByValue(a: string, b: string)
    requires AllDigits(a) && AllDigits(b)
    ensures CompareRuns(a, b) == CompareNumbers(a, b)
  {
    var s, t := StripZeros(a), StripZeros(b);
    StrippedHasTheValue(a);
    StrippedHasTheValue(b);
    if |s| == |t| {
      SameLengthComparesByValue(s, t);
    } else {
      ValueIsBounded(s);
      ValueIsBounded(t);
      if |s| < |t| { Pow10Grows(|s|, |t| - 1); } else { Pow10Grows(|t|, |s| - 1); }
    }
  }

  // ----- the comparison -----

  class Chars {
    var rest: string

    constructor (text: string)
      ensures rest == text
    {
      rest := text;
    }

    function Peek(): Option<char>
      reads this
    {
      if rest == [] then None else Some(rest[0])
    }

    method Next()
      modifies this
      ensures rest == if old(rest) == [] then [] else old(rest)[1..]
    {
      if rest != [] { rest := rest[1..]; }
    }
  }

  method TakeAsciiDigitRun(chars: Chars) returns (digits: string)
    modifies chars
    ensures digits == old(chars.rest)[..DigitRun(old(chars.rest))]
    ensures chars.rest == old(chars.rest)[DigitRun(old(chars.rest))..]
  {
    digits := [];
    ghost var whole := chars.rest;
    while chars.Peek().Some? && IsDigit(chars.Peek().value)
      invariant |digits| <= |whole| && chars.rest == whole[|digits|..] && digits == whole[..|digits|]
      invariant DigitRun(whole) == |digits| + DigitRun(chars.rest)
      decreases |chars.rest|
    {
      digits := digits + [chars.Peek().value];
      chars.Next();
    }
  }

  method NaturalSortTextCmp(left: string, right: string) returns (ordering: Ordering)
    ensures ordering == NaturalCompare(left, right)
  {
    var leftChars := new Chars(left);
    var rightChars := new Chars(right);
    while true
      invariant fresh(leftChars) && fresh(rightChars) && leftChars != rightChars
      invariant NaturalCompare(left, right) == NaturalCompare(leftChars.rest, rightChars.rest)
      decreases |leftChars.rest|
    {
      match (leftChars.Peek(), rightChars.Peek()) {
        case (Some(leftChar), Some(rightChar)) =>
          if IsDigit(leftChar) && IsDigit(rightChar) {
            DigitsDecide(leftChars.rest, rightChars.rest);
            var leftNumber := TakeAsciiDigitRun(leftChars);
            var rightNumber := TakeAsciiDigitRun(rightChars);
            var digitCmp := CompareInts(|StripZeros(leftNumber)|, |StripZeros(rightNumber)|);
            if digitCmp != Equal { return digitCmp; }
            var valueCmp := CompareStrings(StripZeros(leftNumber), StripZeros(rightNumber));
            if valueCmp != Equal { return valueCmp; }
            var zeroPaddingCmp := CompareInts(|leftNumber|, |rightNumber|);
            if zeroPaddingCmp != Equal { return zeroPaddingCmp; }
          } else {
            LettersDecide(leftChars.rest, rightChars.rest);
            var charCmp := CompareInts(AsciiLower(leftChar) as int, AsciiLower(rightChar) as int);
            if charCmp != Equal { return charCmp; }
            leftChars.Next();
            rightChars.Next();
          }
        case (Some(_), None) => return Greater;
        case (None, Some(_)) => return Less;
        case (None, None) => return Equal;
      }
    }
  }

  lemma {:induction false} DigitsDecide(left: string, right: string)
    requires left != [] && right != [] && IsDigit(left[0]) && IsDigit(right[0])
    ensures var m, n := DigitRun(left), DigitRun(right);
      && 0 < m && 0 < n
      && NaturalCompare(left, right) == CompareRuns(left[..m], right[..n]).Then(NaturalCompare(left[m..], right[n..]))
  {
    RunsCompareByValue(left[..DigitRun(left)], right[..DigitRun(right)]);
    hide CompareRuns;
    hide CompareNumbers;
  }

  /** A digit never compares equal to another character, so the runs need not be consumed whole. */
  lemma LettersDecide(left: string, right: string)
    requires left != [] && right != [] && !(IsDigit(left[0]) && IsDigit(right[0]))
    ensures NaturalCompare(left, right)
            == CompareInts(AsciiLower(left[0]) as int, AsciiLower(right[0]) as int)
               .Then(NaturalCompare(left[1..], right[1..]))
  {
    TokensAreWellFormed(left);
    TokensAreWellFormed(right);
    var a, b := Tokens(left)[0], Tokens(right)[0];
    assert First(a) == AsciiLower(left[0]) as int && First(b) == AsciiLower(right[0]) as int;
  }

  // ----- it is a total order -----

  lemma TokenOrder(a: Token, b: Token, c: Token)
    requires WellFormed(a) && WellFormed(b) && WellFormed(c)
    ensures CompareTokens(a, b) == CompareTokens(b, a).Flip()
    ensures CompareTokens(a, b) == Equal <==> a == b
    ensures CompareTokens(a, b) == Less && CompareTokens(b, c) == Less ==> CompareTokens(a, c) == Less
  {
    if a.Number? && b.Number? && |a.digits| == |b.digits| {
      SameLengthComparesByValue(a.digits, b.digits);
    }
  }

  lemma {:induction false} TokensOrder(a: seq<Token>, b: seq<Token>, c: seq<Token>)
    requires AllWellFormed(a) && AllWellFormed(b) && AllWellFormed(c)
    ensures CompareAll(a, b) == CompareAll(b, a).Flip()
    ensures CompareAll(a, b) == Equal <==> a == b
    ensures CompareAll(a, b) == Less && CompareAll(b, c) == Less ==> CompareAll(a, c) == Less
  {
    if a != [] && b != [] {
      TokenOrder(a[0], b[0], if c == [] then a[0] else c[0]);
      TokensOrder(a[1..], b[1..], if c == [] then [] else c[1..]);
      assert a == [a[0]] + a[1..] && b == [b[0]] + b[1..];
      if c != [] {
        TokenOrder(b[0], c[0], a[0]);
        TokenOrder(a[0], c[0], b[0]);
      }
    }
  }

  function Lowered(text: string): (lowered: string)
    ensures EqIgnoreCase(text, lowered) && forall i :: 0 <= i < |lowered| ==> !IsUpperCase(lowered[i])
  {
    seq(|text|, i requires 0 <= i < |text| => AsciiLower(text[i]))
  }

  /** The text a list of tokens was read from, in lower case. */
  function Spell(tokens: seq<Token>): string {
    if tokens == [] then []
    else (match tokens[0] case Number(digits) => digits case Letter(c) => [c]) + Spell(tokens[1..])
  }

  /** How much of the text the first token takes. */
  function FirstRun(text: string): (n: nat)
    requires text != []
    ensures 0 < n <= |text|
  {
    if IsDigit(text[0]) then DigitRun(text) else 1
  }

  lemma SpellFirst(text: string)
    requires text != []
    ensures Spell(Tokens(text)) == Lowered(text[..FirstRun(text)]) + Spell(Tokens(text[FirstRun(text)..]))
  {
    var n := FirstRun(text);
    assert Tokens(text)[1..] == Tokens(text[n..]);
    hide DigitRun;
    if IsDigit(text[0]) {
      assert AllDigits(text[..n]);
      assert Lowered(text[..n]) == text[..n];
    } else {
      assert Lowered(text[..n]) == [AsciiLower(text[0])];
    }
  }

  lemma LoweredInTwo(text: string, n: nat)
    requires n <= |text|
    ensures Lowered(text) == Lowered(text[..n]) + Lowered(text[n..])
  {
  }

  lemma {:induction false} TokensSpellTheText(text: string)
    ensures Spell(Tokens(text)) == Lowered(text)
    decreases |text|
  {
    if text != [] {
      hide *;
      SpellFirst(text);
      TokensSpellTheText(text[FirstRun(text)..]);
      LoweredInTwo(text, FirstRun(text));
    }
  }

  lemma {:induction false} DigitRunIgnoresCase(text: string)
    ensures DigitRun(Lowered(text)) == DigitRun(text)
  {
    if text != [] {
      assert Lowered(text)[1..] == Lowered(text[1..]);
      DigitRunIgnoresCase(text[1..]);
    }
  }

  lemma {:induction false} TokensIgnoreCase(text: string)
    ensures Tokens(Lowered(text)) == Tokens(text)
    decreases |text|
  {
    if text != [] {
      DigitRunIgnoresCase(text);
      var n := if IsDigit(text[0]) then DigitRun(text) else 1;
      assert Lowered(text)[n..] == Lowered(text[n..]);
      TokensIgnoreCase(text[n..]);
      assert IsDigit(text[0]) ==> Lowered(text)[..n] == text[..n];
    }
  }

  /** The order is total: comparing the other way round flips the answer, `Less` chains, and texts are
      equal exactly when they differ at most in ASCII case. */
  lemma NaturalOrderIsTotal(a: string, b: string, c: string)
    ensures NaturalCompare(a, b) == NaturalCompare(b, a).Flip()
    ensures NaturalCompare(a, b) == Equal <==> EqIgnoreCase(a, b)
    ensures NaturalCompare(a, b) == Less && NaturalCompare(b, c) == Less ==> NaturalCompare(a, c) == Less
    ensures NaturalCompare(a, b) == Equal ==> NaturalCompare(a, c) == NaturalCompare(b, c)
  {
    TokensAreWellFormed(a);
    TokensAreWellFormed(b);
    TokensAreWellFormed(c);
    TokensOrder(Tokens(a), Tokens(b), Tokens(c));
    TokensSpellTheText(a);
    TokensSpellTheText(b);
    TokensIgnoreCase(a);
    TokensIgnoreCase(b);
    SameWhenLowered(a, b);
  }

  lemma SameWhenLowered(a: string, b: string)
    ensures Lowered(a) == Lowered(b) <==> EqIgnoreCase(a, b)
  {
    if |a| == |b| {
      forall i | 0 <= i < |a|
        ensures Lowered(a)[i] == Lowered(b)[i] <==> SameLetter(a[i], b[i])
      {
        SameLowered(a[i], b[i]);
      }
    }
  }

  // ----- numbers inside texts -----

  predicate NoDigitFirst(text: string) { text == [] || !IsDigit(text[0]) }

  predicate NoDigitLast(text: string) { text == [] || !IsDigit(text[|text| - 1]) }

  lemma {:induction false} DigitRunStops(run: string, rest: string)
    requires AllDigits(run) && NoDigitFirst(rest)
    ensures DigitRun(run + rest) == |run|
  {
    if run == [] {
      assert run + rest == rest;
    } else {
      assert (run + rest)[1..] == run[1..] + rest;
      DigitRunStops(run[1..], rest);
    }
  }

  lemma {:induction false} CommonRunIsIgnored(run: string, left: string, right: string)
    requires AllDigits(run) && run != [] && NoDigitFirst(left) && NoDigitFirst(right)
    ensures NaturalCompare(run + left, run + right) == NaturalCompare(left, right)
  {
    DigitRunStops(run, left);
    DigitRunStops(run, right);
    DigitsDecide(run + left, run + right);
    RunsCompareByValue(run, run);
    hide NaturalCompare;
    hide CompareRuns;
    assert (run + left)[..|run|] == run == (run + right)[..|run|];
    assert (run + left)[|run|..] == left && (run + right)[|run|..] == right;
  }

  lemma {:induction false} CommonLetterIsIgnored(c: char, left: string, right: string)
    requires !IsDigit(c)
    ensures NaturalCompare([c] + left, [c] + right) == NaturalCompare(left, right)
  {
    hide NaturalCompare;
    LettersDecide([c] + left, [c] + right);
    assert ([c] + left)[1..] == left && ([c] + right)[1..] == right;
  }

  lemma {:induction false} CommonPrefixIsIgnored(prefix: string, left: string, right: string)
    requires NoDigitLast(prefix)
    ensures NaturalCompare(prefix + left, prefix + right) == NaturalCompare(left, right)
    decreases |prefix|
  {
    hide NaturalCompare;
    if prefix == [] {
      assert prefix + left == left && prefix + right == right;
    } else {
      var n := FirstRun(prefix);
      var run, rest := prefix[..n], prefix[n..];
      assert prefix == run + rest;
      CommonPrefixIsIgnored(rest, left, right);
      if IsDigit(prefix[0]) {
        assert rest != [] && AllDigits(run);
        CommonRunIsIgnored(run, rest + left, rest + right);
      } else {
        CommonLetterIsIgnored(prefix[0], rest + left, rest + right);
        assert run == [prefix[0]];
      }
      assert prefix + left == run + (rest + left) && prefix + right == run + (rest + right);
    }
  }

  /** Where two texts first differ by a number, the number decides: `file2` comes before `file10`. */
  lemma NumbersDecide(prefix: string, a: string, restA: string, b: string, restB: string)
    requires NoDigitLast(prefix) && AllDigits(a) && AllDigits(b) && a != [] && b != []
    requires NoDigitFirst(restA) && NoDigitFirst(restB)
    ensures NaturalCompare(prefix + (a + restA), prefix + (b + restB))
            == CompareNumbers(a, b).Then(NaturalCompare(restA, restB))
  {
    CommonPrefixIsIgnored(prefix, a + restA, b + restB);
    DigitRunStops(a, restA);
    DigitRunStops(b, restB);
    DigitsDecide(a + restA, b + restB);
    RunsCompareByValue(a, b);
    assert (a + restA)[..|a|] == a && (b + restB)[..|b|] == b;
    assert (a + restA)[|a|..] == restA && (b + restB)[|b|..] == restB;
  }

  /** A number as it is written, behind any number of zeros. */
  function Written(zeros: nat, n: nat): string { seq(zeros, _ => '0') + Decimal(n) }

  lemma {:induction false} ValueOfSnoc(digits: string, c: char)
    requires AllDigits(digits) && IsDigit(c)
    ensures AllDigits(digits + [c]) && Value(digits + [c]) == 10 * Value(digits) + Digit(c)
  {
    if digits == [] {
      assert [c][1..] == [];
      assert Pow10(0) == 1;
    } else {
      var d, p := Digit(digits[0]), Pow10(|digits| - 1);
      assert (digits + [c])[1..] == digits[1..] + [c];
      ValueOfSnoc(digits[1..], c);
      assert Pow10(|digits|) == 10 * p;
      TimesTen(d, p);
    }
  }

  lemma TimesTen(d: nat, p: nat)
    ensures d * (10 * p) == 10 * (d * p)
  {
  }

  lemma {:induction false} DecimalDenotes(n: nat)
    ensures AllDigits(Decimal(n)) && Decimal(n) != [] && Value(Decimal(n)) == n
  {
    if n < 10 {
      assert [DigitChar(n)] == [] + [DigitChar(n)];
      ValueOfSnoc([], DigitChar(n));
    } else {
      DecimalDenotes(n / 10);
      DivisionSplits(n, 10);
      ValueOfSnoc(Decimal(n / 10), DigitChar(n % 10));
    }
  }

  lemma {:induction false} WrittenDenotes(zeros: nat, n: nat)
    ensures AllDigits(Written(zeros, n)) && Value(Written(zeros, n)) == n
  {
    DecimalDenotes(n);
    if zeros == 0 {
      assert Written(0, n) == Decimal(n);
    } else {
      WrittenDenotes(zeros - 1, n);
      assert Written(zeros, n) == ['0'] + Written(zeros - 1, n);
    }
  }

  /** Numbers behind a common beginning sort by value, then by leading zeros, then by what follows; digits
      are the characters from `0` to `9`. */
  lemma NumbersSortByValue(prefix: string, j: nat, m: nat, restA: string, k: nat, n: nat, restB: string)
    requires prefix == [] || !('0' <= prefix[|prefix| - 1] <= '9')
    requires restA == [] || !('0' <= restA[0] <= '9')
    requires restB == [] || !('0' <= restB[0] <= '9')
    ensures NaturalCompare(prefix + (Written(j, m) + restA), prefix + (Written(k, n) + restB))
            == CompareInts(m, n).Then(CompareInts(j, k)).Then(NaturalCompare(restA, restB))
  {
    WrittenDenotes(j, m);
    WrittenDenotes(k, n);
    DecimalDenotes(m);
    DecimalDenotes(n);
    hide NaturalCompare;
    hide Value;
    NumbersDecide(prefix, Written(j, m), restA, Written(k, n), restB);
  }

  lemma TwoBeforeTen()
    ensures NaturalCompare("file2.txt", "file10.txt") == Less && NaturalCompare("v1.9", "v1.09") == Less
  {
    hide NaturalCompare;
    assert Written(0, 2) == "2" && Written(0, 9) == "9" && Written(1, 9) == "09";
    assert Written(0, 10) == Decimal(10 / 10) + [DigitChar(10 % 10)] == "10";
    assert "file2.txt" == "file" + ("2" + ".txt") && "file10.txt" == "file" + ("10" + ".txt");
    assert "v1.9" == "v1." + ("9" + "") && "v1.09" == "v1." + ("09" + "");
    NumbersSortByValue("file", 0, 2, ".txt", 0, 10, ".txt");
    NumbersSortByValue("v1.", 0, 9, "", 1, 9, "");
  }
}
