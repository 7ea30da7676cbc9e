/** Splitting a token total over weights by largest remainder. */
module Apportionment {

  import opened Numbers

  function SaturatingMul(a: nat, b: nat): nat { if a * b <= USIZE_MAX then a * b else USIZE_MAX }

  function SaturatingAdd(a: nat, b: nat): nat { if a + b <= USIZE_MAX then a + b else USIZE_MAX }

  function Sum(values: seq<nat>): nat {
    if values == [] then 0 else Sum(values[..|values| - 1]) + values[|values| - 1]
  }

  lemma {:induction false} SumOfUpdate(values: seq<nat>, i: nat, value: nat)
    requires i < |values|
    ensures Sum(values[i := value]) == Sum(values) - values[i] + value
  {
    var n := |values| - 1;
    if i == n {
      assert values[i := value][..n] == values[..n];
    } else {
      assert values[i := value][..n] == values[..n][i := value];
      SumOfUpdate(values[..n], i, value);
    }
  }

  lemma {:induction false} SumOfZeros(values: seq<nat>)
    requires forall i :: 0 <= i < |values| ==> values[i] == 0
    ensures Sum(values) == 0
  {
    if values != [] { SumOfZeros(values[..|values| - 1]); }
  }

  lemma {:induction false} ElementIsInSum(values: seq<nat>, i: nat)
    requires i < |values|
    ensures values[i] <= Sum(values)
  {
    if i < |values| - 1 { ElementIsInSum(values[..|values| - 1], i); }
  }

  // ----- shares -----

  /** A weight's share of the total, before anything is left over: quotient and remainder. */
  function Quotient(total: nat, weight: nat, totalWeight: nat): nat
    requires totalWeight > 0
  {
    SaturatingMul(weight, total) / totalWeight
  }

  function Remainder(total: nat, weight: nat, totalWeight: nat): nat
    requires totalWeight > 0
  {
    SaturatingMul(weight, total) % totalWeight
  }

  function Quotients(total: nat, weights: seq<nat>): seq<nat>
    requires Sum(weights) > 0
  {
    seq(|weights|, i requires 0 <= i < |weights| => Quotient(total, weights[i], Sum(weights)))
  }

  function Remainders(total: nat, weights: seq<nat>): seq<nat>
    requires Sum(weights) > 0
  {
    seq(|weights|, i requires 0 <= i < |weights| => Remainder(total, weights[i], Sum(weights)))
  }

  /** What the quotients do not use up. */
  function Leftover(total: nat, weights: seq<nat>): nat
    requires Sum(weights) > 0
  {
    Minus(total, Sum(Quotients(total, weights)))
  }

  /** Position `i` has a claim on a spare token before position `j`. */
  predicate ClaimsFirst(remainders: seq<nat>, i: nat, j: nat)
    requires i < |remainders| && j < |remainders|
  {
    remainders[i] > remainders[j] || (remainders[i] == remainders[j] && i < j)
  }

  predicate HasSpare(quotients: seq<nat>, shares: seq<nat>, i: nat)
    requires |quotients| == |shares| && i < |shares|
  {
    shares[i] > quotients[i]
  }

  /** Some get one more than their quotient, and nobody is passed over for a later claim. */
  ghost predicate NobodyPassedOver(remainders: seq<nat>, quotients: seq<nat>, shares: seq<nat>) {
    && |remainders| == |quotients| == |shares|
    && (forall i :: 0 <= i < |shares| ==> quotients[i] <= shares[i] <= quotients[i] + 1)
    && (forall i, j | 0 <= i < |shares| && 0 <= j < |shares| ::
          HasSpare(quotients, shares, i) && !HasSpare(quotients, shares, j) ==> ClaimsFirst(remainders, i, j))
  }

  /** Everyone gets the quotient, and some a spare token more: as many as are left over, in the order of
      their claims. */
  ghost predicate IsApportionment(total: nat, weights: seq<nat>, shares: seq<nat>)
    requires Sum(weights) > 0
  {
    var quotients := Quotients(total, weights);
    && |shares| == |weights|
    && NobodyPassedOver(Remainders(total, weights), quotients, shares)
    && Sum(shares) == Sum(quotients) + Min(Leftover(total, weights), |weights|)
  }

  // ----- the stable sort -----

  datatype Claim = Claim(remainder: nat, index: nat, weight: nat)

  /** Stable: a new claim goes behind all that are at least as large. */
  function InsertClaim(sorted: seq<Claim>, claim: Claim): seq<Claim> {
    if sorted == [] || sorted[|sorted| - 1].remainder >= claim.remainder then sorted + [claim]
    else InsertClaim(sorted[..|sorted| - 1], claim) + [sorted[|sorted| - 1]]
  }

  /** A stable sort by descending remainder. */
  function SortClaims(claims: seq<Claim>): seq<Claim> {
    if claims == [] then [] else InsertClaim(SortClaims(claims[..|claims| - 1]), claims[|claims| - 1])
  }

  predicate Earlier(a: Claim, b: Claim) {
    a.remainder > b.remainder || (a.remainder == b.remainder && a.index < b.index)
  }

  ghost predicate InClaimOrder(claims: seq<Claim>) {
    forall i, j :: 0 <= i < j < |claims| ==> Earlier(claims[i], claims[j])
  }

  lemma {:induction false} InsertKeepsOrder(sorted: seq<Claim>, claim: Claim)
    requires InClaimOrder(sorted) && forall i :: 0 <= i < |sorted| ==> sorted[i].index < claim.index
    ensures InClaimOrder(InsertClaim(sorted, claim)) && |InsertClaim(sorted, claim)| == |sorted| + 1
    ensures forall c :: c in InsertClaim(sorted, claim) <==> c in sorted || c == claim
  {
    if sorted != [] {
      var last := |sorted| - 1;
      assert forall c :: c in sorted <==> c in sorted[..last] || c == sorted[last];
      if sorted[last].remainder < claim.remainder {
        var front := InsertClaim(sorted[..last], claim);
        InsertKeepsOrder(sorted[..last], claim);
        forall c | c in front
          ensures Earlier(c, sorted[last])
        {
          if c in sorted[..last] {
            var i :| 0 <= i < last && sorted[..last][i] == c;
            assert Earlier(sorted[i], sorted[last]);
          }
        }
      }
    }
  }

  lemma {:induction false} SortClaimsSorts(claims: seq<Claim>)
    requires forall i :: 0 <= i < |claims| ==> claims[i].index == i
    ensures InClaimOrder(SortClaims(claims)) && |SortClaims(claims)| == |claims|
    ensures forall c :: c in SortClaims(claims) <==> c in claims
  {
    if claims != [] {
      var last := |claims| - 1;
      var front := SortClaims(claims[..last]);
      SortClaimsSorts(claims[..last]);
      assert forall c :: c in claims <==> c in claims[..last] || c == claims[last];
      forall i | 0 <= i < |front|
        ensures front[i].index < last
      {
        assert front[i] in claims[..last];
      }
      InsertKeepsOrder(front, claims[last]);
    }
  }

  // ----- the distribution -----

  /** The claims of the positions, in order. */
  ghost predicate ClaimsOf(remainders: seq<nat>, claims: seq<Claim>) {
    && |claims| <= |remainders|
    && forall i :: 0 <= i < |claims| ==> claims[i].index == i && claims[i].remainder == remainders[i]
  }

  lemma ClaimAdded(remainders: seq<nat>, claims: seq<Claim>, claim: Claim)
    requires ClaimsOf(remainders, claims) && claim.index == |claims| < |remainders|
    requires claim.remainder == remainders[claim.index]
    ensures ClaimsOf(remainders, claims + [claim])
  {
  }

  /** `sorted` lists each position's claim once, in claim order. */
  ghost predicate Ranking(remainders: seq<nat>, sorted: seq<Claim>) {
    && |sorted| == |remainders|
    && InClaimOrder(sorted)
    && (forall k :: 0 <= k < |sorted| ==>
          sorted[k].index < |remainders| && sorted[k].remainder == remainders[sorted[k].index])
    && forall i :: 0 <= i < |remainders| ==> Ranked(sorted, i)
  }

  ghost predicate Ranked(sorted: seq<Claim>, i: nat) { exists k :: 0 <= k < |sorted| && sorted[k].index == i }

  lemma {:induction false} SortedClaimsRank(remainders: seq<nat>, claims: seq<Claim>)
    requires ClaimsOf(remainders, claims) && |claims| == |remainders|
    ensures Ranking(remainders, SortClaims(claims))
  {
    var sorted := SortClaims(claims);
    SortClaimsSorts(claims);
    hide SortClaims;
    hide InClaimOrder;
    forall i | 0 <= i < |remainders|
      ensures Ranked(sorted, i)
    {
      assert claims[i] in sorted;
    }
    forall k | 0 <= k < |sorted|
      ensures sorted[k].index < |remainders| && sorted[k].remainder == remainders[sorted[k].index]
    {
      assert sorted[k] in claims;
    }
  }

  /** The first `k` in the ranking have their spare token. */
  ghost predicate HandedOut(quotients: seq<nat>, sorted: seq<Claim>, k: nat, shares: seq<nat>) {
    && |shares| == |quotients| && k <= |sorted|
    && (forall j :: 0 <= j < |sorted| ==> sorted[j].index < |quotients|)
    && (forall j :: 0 <= j < k ==> shares[sorted[j].index] == quotients[sorted[j].index] + 1)
    && (forall j :: k <= j < |sorted| ==> shares[sorted[j].index] == quotients[sorted[j].index])
    && Sum(shares) == Sum(quotients) + k
  }

  lemma HandedOutNone(remainders: seq<nat>, quotients: seq<nat>, sorted: seq<Claim>)
    requires Ranking(remainders, sorted) && |quotients| == |remainders|
    ensures HandedOut(quotients, sorted, 0, quotients) && |sorted| == |remainders|
  {
    hide Sum;
  }

  lemma HandOutNext(remainders: seq<nat>, quotients: seq<nat>, sorted: seq<Claim>, k: nat, shares: seq<nat>)
    requires Ranking(remainders, sorted) && HandedOut(quotients, sorted, k, shares) && k < |sorted|
    ensures sorted[k].index < |shares| == |quotients| && shares[sorted[k].index] == quotients[sorted[k].index]
    ensures HandedOut(quotients, sorted, k + 1, shares[sorted[k].index := quotients[sorted[k].index] + 1])
  {
    var index := sorted[k].index;
    SumOfUpdate(shares, index, quotients[index] + 1);
    forall j | 0 <= j < |sorted| && j != k
      ensures sorted[j].index != index
    {
      assert if j < k then Earlier(sorted[j], sorted[k]) else Earlier(sorted[k], sorted[j]);
    }
  }

  lemma HandedOutIsApportioned(total: nat, weights: seq<nat>, sorted: seq<Claim>, shares: seq<nat>)
    requires Sum(weights) > 0 && Ranking(Remainders(total, weights), sorted)
    requires HandedOut(Quotients(total, weights), sorted, Min(Leftover(total, weights), |weights|), shares)
    ensures IsApportionment(total, weights, shares)
  {
    var quotients, remainders := Quotients(total, weights), Remainders(total, weights);
    var k := Min(Leftover(total, weights), |weights|);
    hide Leftover;
    hide Quotients;
    hide Remainders;
    hide Sum;
    forall i | 0 <= i < |shares|
      ensures quotients[i] <= shares[i] <= quotients[i] + 1
    {
      assert Ranked(sorted, i);
      var rank :| 0 <= rank < |sorted| && sorted[rank].index == i;
      assert rank < k || k <= rank;
    }
    forall i, j | 0 <= i < |shares| && 0 <= j < |shares|
                  && HasSpare(quotients, shares, i) && !HasSpare(quotients, shares, j)
      ensures ClaimsFirst(remainders, i, j)
    {
      assert Ranked(sorted, i) && Ranked(sorted, j);
      var m :| 0 <= m < |sorted| && sorted[m].index == i;
      var n :| 0 <= n < |sorted| && sorted[n].index == j;
      assert m < k <= n;
      assert Earlier(sorted[m], sorted[n]);
    }
  }

  /** The sums of the computation fit a machine word. */
  ghost predicate Countable(total: nat, weights: seq<nat>) { total <= USIZE_MAX && Sum(weights) <= USIZE_MAX }

  lemma QuotientIsBelowShare(total: nat, weight: nat, totalWeight: nat)
    requires totalWeight > 0
    ensures Quotient(total, weight, totalWeight) * totalWeight <= weight * total
  {
    var n := SaturatingMul(weight, total);
    assert n == n / totalWeight * totalWeight + n % totalWeight;
  }

  lemma {:induction false} QuotientsAreBelowShares(total: nat, weights: seq<nat>, k: nat)
    requires Sum(weights) > 0 && k <= |weights|
    ensures Sum(Quotients(total, weights)[..k]) * Sum(weights) <= Sum(weights[..k]) * total
  {
    if k > 0 {
      var q := Quotients(total, weights);
      QuotientsAreBelowShares(total, weights, k - 1);
      QuotientIsBelowShare(total, weights[k - 1], Sum(weights));
      assert q[..k][..k - 1] == q[..k - 1] && weights[..k][..k - 1] == weights[..k - 1];
      Distributes(Sum(q[..k - 1]), q[k - 1], Sum(weights));
      Distributes(Sum(weights[..k - 1]), weights[k - 1], total);
    }
  }

  lemma Distributes(a: int, b: int, c: int)
    ensures (a + b) * c == a * c + b * c
  {
  }

  lemma {:induction false} PrefixSumsGrow(values: seq<nat>, k: nat)
    requires k <= |values|
    ensures Sum(values[..k]) <= Sum(values)
    decreases |values|
  {
    if k == |values| {
      assert values[..k] == values;
    } else {
      PrefixSumsGrow(values[..|values| - 1], k);
      assert values[..|values| - 1][..k] == values[..k];
    }
  }

  /** The quotients never add up to more than the total. */
  lemma {:induction false} QuotientsFit(total: nat, weights: seq<nat>, k: nat)
    requires Sum(weights) > 0 && k <= |weights|
    ensures Sum(Quotients(total, weights)[..k]) <= Sum(Quotients(total, weights)) <= total
  {
    var q, n := Quotients(total, weights), |weights|;
    PrefixSumsGrow(q, k);
    QuotientsAreBelowShares(total, weights, n);
    assert q[..n] == q && weights[..n] == weights;
    CancelFactor(Sum(q), total, Sum(weights));
  }

  lemma CancelFactor(a: nat, b: nat, c: nat)
    requires c > 0 && a * c <= c * b
    ensures a <= b
  {
    if b < a { Distributes(b, a - b, c); }
  }

  lemma NothingToDistribute(weights: seq<nat>, zeros: seq<nat>)
    requires |zeros| == |weights| && Sum(weights) > 0 && forall i :: 0 <= i < |zeros| ==> zeros[i] == 0
    ensures IsApportionment(0, weights, zeros)
  {
    SumOfZeros(zeros);
    SumOfZeros(Quotients(0, weights));
  }

  lemma {:induction false} NextPosition(total: nat, weights: seq<nat>, index: nat)
    requires Sum(weights) > 0 && index < |weights|
    ensures |Quotients(total, weights)| == |weights| == |Remainders(total, weights)|
    ensures Quotients(total, weights)[index] == SaturatingMul(weights[index], total) / Sum(weights)
    ensures Remainders(total, weights)[index] == SaturatingMul(weights[index], total) % Sum(weights)
    ensures Sum(Quotients(total, weights)[..index + 1])
            == Sum(Quotients(total, weights)[..index]) + Quotients(total, weights)[index] <= total
  {
    var quotients := Quotients(total, weights);
    assert quotients[..index + 1][..index] == quotients[..index];
    QuotientsFit(total, weights, index + 1);
  }

  lemma NothingAssigned(total: nat, weights: seq<nat>)
    requires Sum(weights) > 0
    ensures |Quotients(total, weights)| == |weights| == |Remainders(total, weights)|
    ensures Sum(Quotients(total, weights)[..0]) == 0
    ensures ClaimsOf(Remainders(total, weights), [])
    ensures Leftover(total, weights) == Minus(total, Sum(Quotients(total, weights)))
  {
  }

  method DistributeTokensByWeight(total: nat, weights: seq<nat>) returns (distributed: seq<nat>)
    requires Countable(total, weights)
    ensures |distributed| == |weights|
    ensures Sum(weights) == 0 ==> distributed == seq(|weights|, i => if i == 0 then total else 0)
    ensures Sum(weights) > 0 ==> IsApportionment(total, weights, distributed)
  {
    hide Sum;
    hide Quotients;
    hide Remainders;
    hide IsApportionment;
    hide SaturatingMul;
    hide ClaimsOf;
    hide Leftover;
    hide SortClaims;
    hide Ranking;
    hide HandedOut;
    if weights == [] {
      SumOfZeros(weights);
      return [];
    }
    if total == 0 {
      distributed := seq(|weights|, _ => 0);
      if Sum(weights) > 0 { NothingToDistribute(weights, distributed); }
      return;
    }
    var totalWeight := Sum(weights);
    if totalWeight == 0 {
      distributed := seq(|weights|, _ => 0);
      return distributed[0 := total];
    }
    distributed := seq(|weights|, _ => 0);
    var remainders: seq<Claim> := [];
    var assignedTokens: nat := 0;
    ghost var quotients, rest := Quotients(total, weights), Remainders(total, weights);
    NothingAssigned(total, weights);
    var index := 0;
    while index < |weights|
      invariant 0 <= index <= |weights| == |distributed| && |remainders| == index
      invariant forall i :: 0 <= i < index ==> distributed[i] == quotients[i]
      invariant assignedTokens == Sum(quotients[..index]) && ClaimsOf(rest, remainders)
    {
      var weight := weights[index];
      var numerator := SaturatingMul(weight, total);
      NextPosition(total, weights, index);
      var floor: nat, remainder: nat := numerator / totalWeight, numerator % totalWeight;
      distributed := distributed[index := floor];
      assignedTokens := SaturatingAdd(assignedTokens, floor);
      ClaimAdded(rest, remainders, Claim(remainder, index, weight));
      remainders := remainders + [Claim(remainder, index, weight)];
      index := index + 1;
    }
    assert quotients[..index] == quotients && distributed == quotients;
    var leftover := Minus(total, assignedTokens);
    SortedClaimsRank(rest, remainders);
    remainders := SortClaims(remainders);
    ghost var given := leftover;
    HandedOutNone(rest, quotients, remainders);
    var n := 0;
    while n < |remainders|
      invariant 0 <= n <= |remainders| && n + leftover == given && |distributed| == |weights|
      invariant HandedOut(quotients, remainders, n, distributed)
    {
      if leftover == 0 { break; }
      var next := remainders[n].index;
      HandOutNext(rest, quotients, remainders, n, distributed);
      ElementIsInSum(quotients, next);
      distributed := distributed[next := SaturatingAdd(distributed[next], 1)];
      leftover := leftover - 1;
      n := n + 1;
    }
    HandedOutIsApportioned(total, weights, remainders, distributed);
  }
}
