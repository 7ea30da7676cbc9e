/** What a largest-remainder apportionment guarantees: the total, the quota and fairness. */
module ApportionmentLaws {
  import opened Apportionment
  import opened Numbers

  /** No product saturates. */
  ghost predicate Exact(total: nat, weights: seq<nat>) {
    forall i :: 0 <= i < |weights| ==> weights[i] * total <= USIZE_MAX
  }

  predicate Splits(n: nat, w: nat, q: nat, r: nat) { q * w + r == n && r < w }

  lemma PartsAt(total: nat, weights: seq<nat>, i: nat)
    requires Sum(weights) > 0 && i < |weights|
    ensures |Quotients(total, weights)| == |Remainders(total, weights)| == |weights|
    ensures Splits(SaturatingMul(weights[i], total), Sum(weights),
                   Quotients(total, weights)[i], Remainders(total, weights)[i])
  {
    hide Sum;
    hide SaturatingMul;
    var n, w := SaturatingMul(weights[i], total), Sum(weights);
    assert n == n / w * w + n % w;
  }

  lemma PartsCount(total: nat, weights: seq<nat>)
    requires Sum(weights) > 0
    ensures |Quotients(total, weights)| == |Remainders(total, weights)| == |weights|
  {
    hide Sum;
  }

  lemma ExactPartsAt(total: nat, weights: seq<nat>, i: nat)
    requires Sum(weights) > 0 && Exact(total, weights) && i < |weights|
    ensures |Quotients(total, weights)| == |Remainders(total, weights)| == |weights|
    ensures Splits(weights[i] * total, Sum(weights), Quotients(total, weights)[i], Remainders(total, weights)[i])
  {
    hide Sum;
    hide Quotients;
    hide Remainders;
    PartsAt(total, weights, i);
  }

  lemma {:induction false} RemaindersMakeUpTheDifference(total: nat, weights: seq<nat>, k: nat)
    requires Sum(weights) > 0 && Exact(total, weights) && k <= |weights|
    ensures Sum(Quotients(total, weights)[..k]) * Sum(weights) + Sum(Remainders(total, weights)[..k])
            == Sum(weights[..k]) * total
  {
    hide Quotients;
    hide Remainders;
    hide SaturatingMul;
    PartsCount(total, weights);
    if k > 0 {
      var q, r := Quotients(total, weights), Remainders(total, weights);
      RemaindersMakeUpTheDifference(total, weights, k - 1);
      ExactPartsAt(total, weights, k - 1);
      assert q[..k][..k - 1] == q[..k - 1] && r[..k][..k - 1] == r[..k - 1];
      assert weights[..k][..k - 1] == weights[..k - 1];
      Distributes(Sum(q[..k - 1]), q[k - 1], Sum(weights));
      Distributes(Sum(weights[..k - 1]), weights[k - 1], total);
    }
  }

  /** The remainders add up to the leftover, in units of the total weight. */
  lemma RemaindersAreTheLeftover(total: nat, weights: seq<nat>)
    requires Sum(weights) > 0 && Exact(total, weights)
    ensures Sum(Remainders(total, weights)) == Leftover(total, weights) * Sum(weights)
    ensures Leftover(total, weights) == total - Sum(Quotients(total, weights))
  {
    var q, r, n := Quotients(total, weights), Remainders(total, weights), |weights|;
    QuotientsFit(total, weights, n);
    RemaindersMakeUpTheDifference(total, weights, n);
    assert q[..n] == q && r[..n] == r && weights[..n] == weights;
    SolveForRemainders(Sum(q), Sum(r), Sum(weights), total);
  }

  lemma SolveForRemainders(q: nat, r: nat, w: nat, total: nat)
    requires q * w + r == w * total && q <= total
    ensures r == (total - q) * w
  {
    Distributes(total - q, q, w);
  }

  // ----- the total -----

  /** The spare tokens are handed out before the weights run out. */
  ghost predicate Conserves(total: nat, weights: seq<nat>) {
    Sum(weights) == 0 || Leftover(total, weights) <= |weights|
  }

  /** Tokens are never invented. None is lost either, exactly as long as the leftover does not exceed the
      number of weights. */
  lemma {:induction false} SharesSumToTotal(total: nat, weights: seq<nat>, shares: seq<nat>)
    requires Sum(weights) > 0 && IsApportionment(total, weights, shares)
    ensures Sum(shares) <= total
    ensures Sum(shares) == total <==> Conserves(total, weights)
  {
    QuotientsFit(total, weights, 0);
  }

  /** One for every inexact share. */
  function Nonzero(remainders: seq<nat>): seq<nat> {
    seq(|remainders|, i requires 0 <= i < |remainders| => if remainders[i] > 0 then 1 else 0)
  }

  /** There are no more spare tokens than inexact shares. */
  ghost predicate SparesFit(total: nat, weights: seq<nat>)
    requires Sum(weights) > 0
  {
    Min(Leftover(total, weights), |weights|) <= Sum(Nonzero(Remainders(total, weights)))
  }

  lemma {:induction false} SumIsBounded(values: seq<nat>, ones: seq<nat>, factor: nat)
    requires |values| == |ones| && forall i :: 0 <= i < |values| ==> values[i] <= ones[i] * factor
    ensures Sum(values) <= Sum(ones) * factor
  {
    if values != [] {
      var n := |values| - 1;
      assert forall i :: 0 <= i < n ==> values[..n][i] == values[i] && ones[..n][i] == ones[i];
      SumIsBounded(values[..n], ones[..n], factor);
      Distributes(Sum(ones[..n]), ones[n], factor);
    }
  }

  lemma {:induction false} AtMostOneEach(ones: seq<nat>)
    requires forall i :: 0 <= i < |ones| ==> ones[i] <= 1
    ensures Sum(ones) <= |ones|
  {
    if ones != [] { AtMostOneEach(ones[..|ones| - 1]); }
  }

  lemma FewerThan(leftover: nat, ones: nat, w: nat)
    requires w > 0 && leftover * w <= ones * (w - 1)
    ensures leftover == 0 || leftover < ones
  {
    if ones <= leftover && leftover > 0 {
      TimesAtLeast(w - 1, ones, leftover);
      Distributes(w - 1, 1, leftover);
    }
  }

  lemma RemainderBelow(r: nat, w: nat)
    requires r < w
    ensures r <= (if r > 0 then 1 else 0) * (w - 1)
  {
  }

  /** Without saturation the leftover is smaller than the number of inexact shares, so that nothing is lost
      and the spares fit. */
  lemma ExactLeftoverIsSmall(total: nat, weights: seq<nat>)
    requires Sum(weights) > 0 && Exact(total, weights)
    ensures Leftover(total, weights) == 0 || Leftover(total, weights) < Sum(Nonzero(Remainders(total, weights)))
    ensures Conserves(total, weights) && SparesFit(total, weights)
  {
    var r, w := Remainders(total, weights), Sum(weights);
    RemaindersAreTheLeftover(total, weights);
    hide Sum;
    hide Leftover;
    forall i | 0 <= i < |r|
      ensures r[i] <= Nonzero(r)[i] * (w - 1)
    {
      PartsAt(total, weights, i);
      RemainderBelow(r[i], w);
    }
    SumIsBounded(r, Nonzero(r), w - 1);
    FewerThan(Leftover(total, weights), Sum(Nonzero(r)), w);
    AtMostOneEach(Nonzero(r));
  }

  /** With saturation tokens can be lost: four tokens for one huge weight come out as two. */
  lemma SaturationLosesTokens()
    ensures var weights := [0x8000_0000_0000_0000];
      && Countable(4, weights) && Sum(weights) > 0 && Leftover(4, weights) == 3
      && IsApportionment(4, weights, [2]) && Sum([2]) == 2
  {
    var weights: seq<nat> := [0x8000_0000_0000_0000];
    SingleSum(0x8000_0000_0000_0000);
    SingleSum(2);
    SingleSum(1);
    assert Quotient(4, weights[0], 0x8000_0000_0000_0000) == 1;
    assert Quotients(4, weights) == [1];
  }

  lemma SingleSum(value: nat)
    ensures Sum([value]) == value
  {
    assert [value][..0] == [];
  }

  // ----- the quota -----

  lemma {:induction false} SomeoneGotMore(low: seq<nat>, high: seq<nat>, i: nat)
    requires |low| == |high| && i < |low| && low[i] < high[i]
    requires forall j :: 0 <= j < |low| ==> low[j] <= high[j]
    ensures Sum(low) < Sum(high)
  {
    var n := |low| - 1;
    if i < n {
      SomeoneGotMore(low[..n], high[..n], i);
    } else {
      NobodyGotLess(low[..n], high[..n]);
    }
  }

  lemma {:induction false} NobodyGotLess(low: seq<nat>, high: seq<nat>)
    requires |low| == |high| && forall j :: 0 <= j < |low| ==> low[j] <= high[j]
    ensures Sum(low) <= Sum(high)
  {
    if low != [] { NobodyGotLess(low[..|low| - 1], high[..|low| - 1]); }
  }

  lemma {:induction false} SumOfTwo(a: seq<nat>, b: seq<nat>, both: seq<nat>)
    requires |a| == |b| == |both| && forall i :: 0 <= i < |a| ==> both[i] == a[i] + b[i]
    ensures Sum(both) == Sum(a) + Sum(b)
  {
    if a != [] {
      var n := |a| - 1;
      SumOfTwo(a[..n], b[..n], both[..n]);
    }
  }

  function Added(a: seq<nat>, b: seq<nat>): seq<nat>
    requires |a| == |b|
  {
    seq(|a|, i requires 0 <= i < |a| => a[i] + b[i])
  }

  /** Only inexact shares are rounded up, exactly when there are no more spare tokens than these. */
  lemma {:induction false} SparesGoToRemainders(total: nat, weights: seq<nat>, shares: seq<nat>)
    requires Sum(weights) > 0 && IsApportionment(total, weights, shares)
    ensures |Quotients(total, weights)| == |Remainders(total, weights)| == |shares|
    ensures SparesFit(total, weights)
            <==> forall i :: 0 <= i < |shares| && shares[i] > Quotients(total, weights)[i] ==>
                   Remainders(total, weights)[i] > 0
  {
    var q, r := Quotients(total, weights), Remainders(total, weights);
    var one := Nonzero(r);
    hide Sum;
    hide Quotients;
    hide Remainders;
    hide Leftover;
    SumOfTwo(q, one, Added(q, one));
    if i: nat :| i < |shares| && shares[i] > q[i] && r[i] == 0 {
      forall j | 0 <= j < |shares|
        ensures Added(q, one)[j] <= shares[j]
      {
        assert HasSpare(q, shares, i) && (HasSpare(q, shares, j) || ClaimsFirst(r, i, j));
      }
      SomeoneGotMore(Added(q, one), shares, i);
    } else {
      NobodyGotLess(shares, Added(q, one));
    }
  }

  /** `share` is `n / w` rounded down or rounded up. */
  ghost predicate RoundsTo(n: nat, w: nat, share: nat) { (share - 1) * w < n < (share + 1) * w }

  lemma RoundedDownOrUp(q: nat, r: nat, share: nat, w: nat, n: nat)
    requires Splits(n, w, q, r) && q <= share <= q + 1
    ensures RoundsTo(n, w, share) <==> share == q || r > 0
  {
    Distributes(q, 1, w);
    Distributes(q, -1, w);
    Distributes(q + 1, 1, w);
  }

  lemma {:induction false} ShareRounds(total: nat, weights: seq<nat>, shares: seq<nat>, i: nat)
    requires Sum(weights) > 0 && IsApportionment(total, weights, shares) && i < |shares|
    ensures |Quotients(total, weights)| == |Remainders(total, weights)| == |shares|
    ensures RoundsTo(SaturatingMul(weights[i], total), Sum(weights), shares[i])
            <==> (shares[i] > Quotients(total, weights)[i] ==> Remainders(total, weights)[i] > 0)
  {
    hide Sum;
    hide Quotients;
    hide Remainders;
    hide SaturatingMul;
    hide Splits;
    hide RoundsTo;
    hide Leftover;
    PartsAt(total, weights, i);
    var q, r := Quotients(total, weights)[i], Remainders(total, weights)[i];
    assert q <= shares[i] <= q + 1;
    RoundedDownOrUp(q, r, shares[i], Sum(weights), SaturatingMul(weights[i], total));
  }

  /** Quota: every share is the exact share of the possibly saturated product, rounded down or up, exactly
      if the spares fit. */
  lemma {:induction false} SharesMeetQuota(total: nat, weights: seq<nat>, shares: seq<nat>)
    requires Sum(weights) > 0 && IsApportionment(total, weights, shares)
    ensures SparesFit(total, weights)
            <==> forall i :: 0 <= i < |shares| ==>
                   RoundsTo(SaturatingMul(weights[i], total), Sum(weights), shares[i])
  {
    hide Sum;
    hide Quotients;
    hide Remainders;
    hide SaturatingMul;
    hide RoundsTo;
    hide SparesFit;
    hide Leftover;
    SparesGoToRemainders(total, weights, shares);
    forall i | 0 <= i < |shares|
      ensures RoundsTo(SaturatingMul(weights[i], total), Sum(weights), shares[i])
              <==> (shares[i] > Quotients(total, weights)[i] ==> Remainders(total, weights)[i] > 0)
    {
      ShareRounds(total, weights, shares, i);
    }
  }

  // ----- fairness -----

  /** One for every position with a claim before that of position `i`. */
  function AheadOf(remainders: seq<nat>, i: nat): seq<nat>
    requires i < |remainders|
  {
    seq(|remainders|, j requires 0 <= j < |remainders| => if ClaimsFirst(remainders, j, i) then 1 else 0)
  }

  /** Who gets a spare token: exactly the positions with fewer claims ahead than tokens left over. */
  lemma {:induction false} SparesGoByRank(total: nat, weights: seq<nat>, shares: seq<nat>, i: nat)
    requires Sum(weights) > 0 && IsApportionment(total, weights, shares) && i < |shares|
    ensures |Quotients(total, weights)| == |Remainders(total, weights)| == |shares|
    ensures shares[i] == Quotients(total, weights)[i]
      + if Sum(AheadOf(Remainders(total, weights), i)) < Leftover(total, weights) then 1 else 0
  {
    var q, r := Quotients(total, weights), Remainders(total, weights);
    var ahead := AheadOf(r, i);
    hide Sum;
    hide Quotients;
    hide Remainders;
    hide Leftover;
    AtMostOneEach(ahead);
    SomeoneGotMore(ahead, ahead[i := 1], i);
    AtMostOneEach(ahead[i := 1]);
    if HasSpare(q, shares, i) {
      AheadHaveSpares(r, q, shares, i);
    } else {
      SparesAreAhead(r, q, shares, i);
    }
  }

  /** A zero weight gets nothing, unless there are so many spare tokens that its turn comes; never if the
      spares fit. */
  lemma {:induction false} ZeroWeightsGetNothing(total: nat, weights: seq<nat>, shares: seq<nat>, i: nat)
    requires Sum(weights) > 0 && IsApportionment(total, weights, shares) && i < |shares|
    requires weights[i] == 0
    ensures |Remainders(total, weights)| == |shares|
    ensures shares[i] == 0 <==> Leftover(total, weights) <= Sum(AheadOf(Remainders(total, weights), i))
    ensures SparesFit(total, weights) ==> shares[i] == 0
  {
    ZeroWeightHasNoClaim(total, weights, i);
    hide Sum;
    hide Quotients;
    hide Remainders;
    hide SparesFit;
    hide Leftover;
    SparesGoByRank(total, weights, shares, i);
    SparesGoToRemainders(total, weights, shares);
  }

  lemma ZeroWeightHasNoClaim(total: nat, weights: seq<nat>, i: nat)
    requires Sum(weights) > 0 && i < |weights| && weights[i] == 0
    ensures |Quotients(total, weights)| == |Remainders(total, weights)| == |weights|
    ensures Quotients(total, weights)[i] == Remainders(total, weights)[i] == 0
  {
    hide Sum;
  }

  lemma {:induction false} AheadHaveSpares(r: seq<nat>, q: seq<nat>, shares: seq<nat>, i: nat)
    requires NobodyPassedOver(r, q, shares) && i < |shares| && HasSpare(q, shares, i)
    ensures Sum(q) + Sum(AheadOf(r, i)) < Sum(shares)
  {
    hide Sum;
    var ahead := AheadOf(r, i);
    SumOfTwo(q, ahead, Added(q, ahead));
    forall j | 0 <= j < |shares|
      ensures Added(q, ahead)[j] <= shares[j]
    {
      assert HasSpare(q, shares, j) || ClaimsFirst(r, i, j);
    }
    SomeoneGotMore(Added(q, ahead), shares, i);
  }

  lemma {:induction false} SparesAreAhead(r: seq<nat>, q: seq<nat>, shares: seq<nat>, i: nat)
    requires NobodyPassedOver(r, q, shares) && i < |shares| && !HasSpare(q, shares, i)
    ensures Sum(shares) <= Sum(q) + Sum(AheadOf(r, i))
  {
    hide Sum;
    var ahead := AheadOf(r, i);
    SumOfTwo(q, ahead, Added(q, ahead));
    forall j | 0 <= j < |shares|
      ensures shares[j] <= Added(q, ahead)[j]
    {
      assert !HasSpare(q, shares, j) || ClaimsFirst(r, j, i);
    }
    NobodyGotLess(shares, Added(q, ahead));
  }

  /** The cut between those who get a spare token and those who do not lies between two positions. */
  ghost predicate CutBetween(total: nat, weights: seq<nat>, j: nat, i: nat)
    requires Sum(weights) > 0 && j < |weights| && i < |weights|
  {
    Sum(AheadOf(Remainders(total, weights), j)) < Leftover(total, weights)
    <= Sum(AheadOf(Remainders(total, weights), i))
  }

  /** Fairness: of equal weights the earlier gets at most one token more and never less. A larger weight
      never gets less, unless both products saturate, the smaller weight comes first and the last spare
      token goes out between them. */
  lemma {:induction false} SharesAreFair(total: nat, weights: seq<nat>, shares: seq<nat>, i: nat, j: nat)
    requires Sum(weights) > 0 && IsApportionment(total, weights, shares) && i < |shares| && j < |shares|
    ensures weights[i] == weights[j] && i < j ==> shares[j] <= shares[i] <= shares[j] + 1
    ensures weights[j] < weights[i] && total > 0 ==>
      (shares[i] < shares[j] <==> weights[j] * total >= USIZE_MAX && j < i && CutBetween(total, weights, j, i))
    ensures total == 0 ==> shares[i] == shares[j] == 0
  {
    ProductsCompare(weights[j], weights[i], total);
    PartsCompare(total, weights, i, j);
    SparesGoByRank(total, weights, shares, i);
    SparesGoByRank(total, weights, shares, j);
    if total == 0 {
      SharesSumToTotal(total, weights, shares);
      ElementIsInSum(shares, i);
      ElementIsInSum(shares, j);
    } else {
      var q, r := Quotients(total, weights), Remainders(total, weights);
      hide Sum;
      hide Quotients;
      hide Remainders;
      hide Leftover;
      hide SaturatingMul;
      assert HasSpare(q, shares, i) || !HasSpare(q, shares, j) || ClaimsFirst(r, j, i);
    }
  }

  lemma ProductsCompare(a: nat, b: nat, total: nat)
    ensures a == b ==> SaturatingMul(a, total) == SaturatingMul(b, total)
    ensures a < b ==> SaturatingMul(a, total) <= SaturatingMul(b, total)
    ensures a < b && total > 0 ==>
      (SaturatingMul(a, total) < SaturatingMul(b, total) <==> a * total < USIZE_MAX)
  {
    if a < b {
      Distributes(a, b - a, total);
      if total > 0 { AtLeastOnce(b - a, total); }
    }
  }

  lemma {:induction false} PartsCompare(total: nat, weights: seq<nat>, i: nat, j: nat)
    requires Sum(weights) > 0 && i < |weights| && j < |weights|
    ensures |Quotients(total, weights)| == |Remainders(total, weights)| == |weights|
    ensures var q, r := Quotients(total, weights), Remainders(total, weights);
      var m, n := SaturatingMul(weights[j], total), SaturatingMul(weights[i], total);
      && (m <= n ==> q[j] < q[i] || (q[j] == q[i] && r[j] <= r[i]))
      && (m < n ==> q[j] < q[i] || r[j] < r[i])
      && (m == n ==> q[j] == q[i] && r[j] == r[i])
  {
    hide Sum;
    hide SaturatingMul;
    PartsAt(total, weights, i);
    PartsAt(total, weights, j);
    hide Quotients;
    hide Remainders;
    var q, r, w := Quotients(total, weights), Remainders(total, weights), Sum(weights);
    var m, n := SaturatingMul(weights[j], total), SaturatingMul(weights[i], total);
    if m <= n { OrderOfParts(m, q[j], r[j], n, q[i], r[i], w); }
    if n <= m { OrderOfParts(n, q[i], r[i], m, q[j], r[j], w); }
    hide Splits;
  }

  lemma OrderOfParts(m: nat, a: nat, x: nat, n: nat, b: nat, y: nat, w: nat)
    requires Splits(m, w, a, x) && Splits(n, w, b, y) && m <= n
    ensures a < b || (a == b && x <= y)
    ensures m < n ==> a < b || x < y
  {
    if b < a { Distributes(b, a - b, w); AtLeastOnce(a - b, w); }
  }

  lemma AtLeastOnce(a: nat, w: nat)
    requires a > 0
    ensures w <= a * w
  {
  }

  /** With saturation a larger weight can get less: both products stop at the same bound, and the earlier
      claim wins. */
  lemma SaturationCanBeUnfair()
    ensures var weights := [0x5555_5555_5555_5556, 0x5555_5555_5555_5557];
      Countable(3, weights) && Sum(weights) > 0 && IsApportionment(3, weights, [2, 1])
  {
    var weights: seq<nat> := [0x5555_5555_5555_5556, 0x5555_5555_5555_5557];
    PairSum(0x5555_5555_5555_5556, 0x5555_5555_5555_5557);
    PairSum(2, 1);
    PairSum(1, 1);
    assert Quotients(3, weights) == [1, 1];
  }

  lemma PairSum(a: nat, b: nat)
    ensures Sum([a, b]) == a + b
  {
    assert [a, b][..1] == [a];
    SingleSum(a);
  }
}
