/** Token segments of the context budget: splitting a prompt prelude and calibrating a snapshot. */
module ContextBudget {
  import opened Wrappers
  import opened Folding
  import opened Apportionment
  import opened ApportionmentLaws

  datatype SegmentKind =
    System | SkillDiscovery | UserMessage | AssistantMessage | ToolResult | Reasoning | ToolDefinitions

  datatype Segment = Segment(kind: SegmentKind, estimatedTokens: nat)

  type ContextTokenLimit = limit: nat | 0 < limit witness 1

  datatype ContextWindowUsage = ContextWindowUsage(limit: ContextTokenLimit, used: nat)

  datatype Snapshot = Snapshot(
    modelId: string, segments: seq<Segment>, totalEstimatedTokens: nat, usage: ContextWindowUsage)

  /** What the finished snapshot takes from its probe. */
  datatype Probe = Probe(modelId: string, contextLimit: ContextTokenLimit, upstreamContextTokens: Option<nat>)

  function Tokens(segments: seq<Segment>): seq<nat> {
    seq(|segments|, i requires 0 <= i < |segments| => segments[i].estimatedTokens)
  }

  function Kinds(segments: seq<Segment>): seq<SegmentKind> {
    seq(|segments|, i requires 0 <= i < |segments| => segments[i].kind)
  }

  /** The total handed out by weight, all to the first if nothing weighs anything. */
  ghost predicate SharedOut(total: nat, weights: seq<nat>, shares: seq<nat>) {
    if Sum(weights) == 0 then shares == seq(|weights|, i => if i == 0 then total else 0)
    else IsApportionment(total, weights, shares)
  }

  /** `after` is `before` with the total handed out by the old token counts. */
  ghost predicate Scaled(before: seq<Segment>, after: seq<Segment>, total: nat) {
    Kinds(after) == Kinds(before) && SharedOut(total, Tokens(before), Tokens(after))
  }

  method ScaleSegmentsToTotal(segments: array<Segment>, total: nat)
    requires Countable(total, Tokens(segments[..]))
    modifies segments
    ensures Scaled(old(segments[..]), segments[..], total)
  {
    ghost var before := segments[..];
    if segments.Length == 0 {
      return;
    }
    var weights := Tokens(segments[..]);
    var distributed := DistributeTokensByWeight(total, weights);
    var i := 0;
    while i < segments.Length
      invariant 0 <= i <= segments.Length
      invariant forall j :: 0 <= j < i ==> segments[j] == before[j].(estimatedTokens := distributed[j])
      invariant forall j :: i <= j < segments.Length ==> segments[j] == before[j]
    {
      segments[i] := segments[i].(estimatedTokens := distributed[i]);
      i := i + 1;
    }
    assert Tokens(segments[..]) == distributed && Kinds(segments[..]) == Kinds(before);
  }

  /** A provider's total replaces the estimate and is spread over the segments. */
  ghost predicate Finished(probe: Probe, before: seq<Segment>, snapshot: Snapshot) {
    && snapshot.modelId == probe.modelId
    && snapshot.usage == ContextWindowUsage(probe.contextLimit, snapshot.totalEstimatedTokens)
    && match probe.upstreamContextTokens
       case Some(total) => snapshot.totalEstimatedTokens == total && Scaled(before, snapshot.segments, total)
       case None => snapshot.segments == before && snapshot.totalEstimatedTokens == Sum(Tokens(before))
  }

  method FinishSnapshot(probe: Probe, segments: array<Segment>) returns (snapshot: Snapshot)
    requires probe.upstreamContextTokens.Some? ==>
      Countable(probe.upstreamContextTokens.value, Tokens(segments[..]))
    modifies segments
    ensures snapshot.segments == segments[..] && Finished(probe, old(segments[..]), snapshot)
  {
    var total: nat;
    match probe.upstreamContextTokens {
      case Some(tokens) =>
        ScaleSegmentsToTotal(segments, tokens);
        total := tokens;
      case None =>
        total := Sum(Tokens(segments[..]));
    }
    var usage := ContextWindowUsage(probe.contextLimit, total);
    snapshot := Snapshot(probe.modelId, segments[..], total, usage);
  }

  lemma {:induction false} FirstOnly(total: nat, n: nat)
    requires 0 < n
    ensures Sum(seq(n, i => if i == 0 then total else 0)) == total
  {
    var values: seq<nat> := seq(n, i => if i == 0 then total else 0);
    if n == 1 {
      assert values == [total];
      SingleSum(total);
    } else {
      assert values[..n - 1] == seq(n - 1, i => if i == 0 then total else 0);
      FirstOnly(total, n - 1);
    }
  }

  /** Scaling a nonempty list makes it sum to the total, as long as no spare token is left over. */
  lemma ScaledSumsToTotal(before: seq<Segment>, after: seq<Segment>, total: nat)
    requires Scaled(before, after, total) && before != []
    ensures Sum(Tokens(after)) == total <==> Conserves(total, Tokens(before))
  {
    var weights := Tokens(before);
    if Sum(weights) == 0 {
      FirstOnly(total, |weights|);
    } else {
      SharesSumToTotal(total, weights, Tokens(after));
    }
  }

  /** When the segments of a finished snapshot sum to its reported total: always without calibration; with
      it, if there are segments to take the total and no product saturates so far that spare tokens are
      left over. */
  lemma FinishedSnapshotConserves(probe: Probe, before: seq<Segment>, snapshot: Snapshot)
    requires Finished(probe, before, snapshot)
    ensures Sum(Tokens(snapshot.segments)) == snapshot.usage.used <==>
      match probe.upstreamContextTokens
      case Some(total) => if before == [] then total == 0 else Conserves(total, Tokens(before))
      case None => true
    ensures Kinds(snapshot.segments) == Kinds(before)
  {
    if probe.upstreamContextTokens.Some? {
      if before == [] {
        assert Tokens(snapshot.segments) == [];
      } else {
        ScaledSumsToTotal(before, snapshot.segments, probe.upstreamContextTokens.value);
      }
    }
  }

  /** Without saturation only a missing segment breaks the sum. */
  lemma ExactSnapshotConserves(probe: Probe, total: nat, before: seq<Segment>, snapshot: Snapshot)
    requires probe.upstreamContextTokens == Some(total) && Finished(probe, before, snapshot)
    requires Exact(total, Tokens(before)) && before != []
    ensures Sum(Tokens(snapshot.segments)) == total
  {
    FinishedSnapshotConserves(probe, before, snapshot);
    if Sum(Tokens(before)) > 0 { ExactLeftoverIsSmall(total, Tokens(before)); }
  }

  /** Calibrating a snapshot without segments to five tokens. */
  lemma EmptySnapshotReportsTokens()
    ensures var snapshot := Snapshot("model", [], 5, ContextWindowUsage(1000, 5));
      && Finished(Probe("model", 1000, Some(5)), [], snapshot)
      && Sum(Tokens(snapshot.segments)) == 0 && snapshot.usage.used == 5
  {
    var none: seq<Segment> := [];
    assert Tokens(none) == [] == seq(0, i => if i == 0 then 5 else 0);
    assert Finished(Probe("model", 1000, Some(5)), none, Snapshot("model", none, 5, ContextWindowUsage(1000, 5)));
  }

  // ----- splitting the prompt prelude -----

  datatype Section = Section(isSkillDiscovery: bool, body: string)

  datatype Bucket = Bucket(kind: SegmentKind, tokenWeight: nat)

  /** The provider's tokenizer and message serializer. */
  datatype Encoding = Encoding(unicode: Unicode, estimateText: string -> nat, serializedSystemMessage: string -> string)

  function Join(parts: seq<string>): string {
    if |parts| == 0 then "" else if |parts| == 1 then parts[0]
    else Join(parts[..|parts| - 1]) + "\n\n" + parts[|parts| - 1]
  }

  /** The trimmed, nonempty bodies of one kind, in order. */
  function Bodies(unicode: Unicode, sections: seq<Section>, skills: bool): seq<string> {
    if sections == [] then []
    else
      var last := sections[|sections| - 1];
      var body := Trim(unicode, last.body);
      Bodies(unicode, sections[..|sections| - 1], skills)
      + if body != [] && last.isSkillDiscovery == skills then [body] else []
  }

  function BucketOf(encoding: Encoding, kind: SegmentKind, bodies: seq<string>): seq<Bucket> {
    if bodies == [] then []
    else [Bucket(kind, encoding.estimateText(encoding.serializedSystemMessage(Join(bodies))))]
  }

  /** The system bucket, if any, in front of the skill bucket, if any. */
  function Buckets(encoding: Encoding, sections: seq<Section>): seq<Bucket> {
    BucketOf(encoding, System, Bodies(encoding.unicode, sections, false))
    + BucketOf(encoding, SkillDiscovery, Bodies(encoding.unicode, sections, true))
  }

  method PromptPreludeBuckets(encoding: Encoding, sections: seq<Section>) returns (buckets: seq<Bucket>)
    ensures buckets == Buckets(encoding, sections)
  {
    var systemSections: seq<string> := [];
    var skillSections: seq<string> := [];
    var i := 0;
    while i < |sections|
      invariant 0 <= i <= |sections|
      invariant systemSections == Bodies(encoding.unicode, sections[..i], false)
      invariant skillSections == Bodies(encoding.unicode, sections[..i], true)
    {
      assert sections[..i + 1][..i] == sections[..i];
      var body := Trim(encoding.unicode, sections[i].body);
      if body != [] {
        if sections[i].isSkillDiscovery {
          skillSections := skillSections + [body];
        } else {
          systemSections := systemSections + [body];
        }
      }
      i := i + 1;
    }
    assert sections[..i] == sections;
    buckets := BucketOf(encoding, System, systemSections) + BucketOf(encoding, SkillDiscovery, skillSections);
  }

  function Weights(buckets: seq<Bucket>): seq<nat> {
    seq(|buckets|, i requires 0 <= i < |buckets| => buckets[i].tokenWeight)
  }

  /** The buckets that got any tokens. */
  function NonzeroSegments(buckets: seq<Bucket>, tokens: seq<nat>): seq<Segment>
    requires |buckets| == |tokens|
  {
    if buckets == [] then []
    else
      var n := |buckets| - 1;
      NonzeroSegments(buckets[..n], tokens[..n])
      + if tokens[n] > 0 then [Segment(buckets[n].kind, tokens[n])] else []
  }

  lemma {:induction false} DroppingZerosKeepsTheSum(buckets: seq<Bucket>, tokens: seq<nat>)
    requires |buckets| == |tokens|
    ensures Sum(Tokens(NonzeroSegments(buckets, tokens))) == Sum(tokens)
    ensures forall i :: 0 <= i < |NonzeroSegments(buckets, tokens)| ==>
      NonzeroSegments(buckets, tokens)[i].estimatedTokens > 0
  {
    if buckets != [] {
      var n := |buckets| - 1;
      var front, all := NonzeroSegments(buckets[..n], tokens[..n]), NonzeroSegments(buckets, tokens);
      DroppingZerosKeepsTheSum(buckets[..n], tokens[..n]);
      if tokens[n] > 0 {
        assert all == front + [Segment(buckets[n].kind, tokens[n])];
        assert Tokens(all)[..|front|] == Tokens(front);
      } else {
        assert all == front;
      }
    }
  }

  predicate IsBody(unicode: Unicode, section: Section, skills: bool) {
    Trim(unicode, section.body) != [] && section.isSkillDiscovery == skills
  }

  /** Where the bodies of a kind stand among the sections. */
  ghost predicate BodiesAt(unicode: Unicode, sections: seq<Section>, skills: bool, at: seq<nat>) {
    var bodies := Bodies(unicode, sections, skills);
    && |at| == |bodies|
    && (forall i, j :: 0 <= i < j < |at| ==> at[i] < at[j])
    && forall i :: 0 <= i < |at| ==> at[i] < |sections| && bodies[i] == Trim(unicode, sections[at[i]].body)
  }

  ghost predicate AllBodies(unicode: Unicode, sections: seq<Section>, skills: bool, at: seq<nat>) {
    forall k: nat :: k in at <==> k < |sections| && IsBody(unicode, sections[k], skills)
  }

  /** The bodies of a kind are those of the sections of that kind that hold more than white space, trimmed
      and in order. */
  lemma {:induction false} BodiesAreTheSections(unicode: Unicode, sections: seq<Section>, skills: bool)
    returns (at: seq<nat>)
    ensures BodiesAt(unicode, sections, skills, at) && AllBodies(unicode, sections, skills, at)
  {
    hide BodiesAt;
    hide AllBodies;
    hide IsBody;
    if sections == [] {
      at := [];
      NoSections(unicode, skills);
    } else {
      var n := |sections| - 1;
      at := BodiesAreTheSections(unicode, sections[..n], skills);
      OneMoreSection(unicode, sections[..n], sections[n], skills, at);
      AllBodiesSoFar(unicode, sections[..n], sections[n], skills, at);
      assert sections[..n] + [sections[n]] == sections;
      if IsBody(unicode, sections[n], skills) { at := at + [n]; }
    }
  }

  lemma NoSections(unicode: Unicode, skills: bool)
    ensures BodiesAt(unicode, [], skills, []) && AllBodies(unicode, [], skills, [])
  {
  }

  lemma {:induction false} OneMoreSection(unicode: Unicode, sections: seq<Section>, last: Section, skills: bool,
                                          at: seq<nat>)
    requires BodiesAt(unicode, sections, skills, at)
    ensures BodiesAt(unicode, sections + [last], skills,
                     if IsBody(unicode, last, skills) then at + [|sections|] else at)
  {
    hide Trim;
    hide Bodies;
    hide IsBody;
    BodiesSnoc(unicode, sections, last, skills);
    var all := sections + [last];
    var more := if IsBody(unicode, last, skills) then at + [|sections|] else at;
    var bodies := Bodies(unicode, all, skills);
    forall i | 0 <= i < |more|
      ensures more[i] < |all| && bodies[i] == Trim(unicode, all[more[i]].body)
    {
      if i < |at| { assert all[at[i]] == sections[at[i]]; }
    }
  }

  lemma BodiesSnoc(unicode: Unicode, sections: seq<Section>, last: Section, skills: bool)
    ensures Bodies(unicode, sections + [last], skills)
            == Bodies(unicode, sections, skills)
               + if IsBody(unicode, last, skills) then [Trim(unicode, last.body)] else []
  {
    hide Trim;
    assert (sections + [last])[..|sections|] == sections;
  }

  lemma {:induction false} AllBodiesSoFar(unicode: Unicode, sections: seq<Section>, last: Section, skills: bool,
                                          at: seq<nat>)
    requires AllBodies(unicode, sections, skills, at)
    ensures AllBodies(unicode, sections + [last], skills,
                      if IsBody(unicode, last, skills) then at + [|sections|] else at)
  {
    hide IsBody;
  }

  /** Bodies are joined by an empty line. */
  lemma JoinedByEmptyLines(parts: seq<string>, last: string)
    ensures Join([last]) == last
    ensures parts != [] ==> Join(parts + [last]) == Join(parts) + "\n\n" + last
    ensures Join(["first", "second"]) == "first" + ['\n', '\n'] + "second"
  {
    assert (parts + [last])[..|parts|] == parts;
    assert ["first", "second"][..1] == ["first"];
  }

  function Part(kind: SegmentKind, tokens: nat): seq<Segment> { if tokens > 0 then [Segment(kind, tokens)] else [] }

  function WeightOf(encoding: Encoding, bodies: seq<string>): nat {
    encoding.estimateText(encoding.serializedSystemMessage(Join(bodies)))
  }

  /** What becomes of the total: it is shared between the system bodies, if there are any, and the skill
      bodies, by their weights; the system part comes first, and a part without tokens is left out. */
  ghost predicate SplitInto(encoding: Encoding, sections: seq<Section>, total: nat, split: seq<Segment>) {
    var system, skills := Bodies(encoding.unicode, sections, false), Bodies(encoding.unicode, sections, true);
    var ofSkills := WeightOf(encoding, skills);
    if system == [] then
      exists b: nat :: SharedOut(total, [ofSkills], [b]) && split == Part(SkillDiscovery, b)
    else
      var ofSystem := WeightOf(encoding, system);
      exists a: nat, b: nat :: SharedOut(total, [ofSystem, ofSkills], [a, b])
                               && split == Part(System, a) + Part(SkillDiscovery, b)
  }

  method SplitPromptPreludeSystemSegment(encoding: Encoding, isSystemMessage: bool, projectionText: string,
                                         promptPrelude: Option<seq<Section>>)
    returns (split: Option<seq<Segment>>)
    requires promptPrelude.Some? ==>
      Countable(encoding.estimateText(projectionText), Weights(Buckets(encoding, promptPrelude.value)))
    ensures split.Some? <==>
      isSystemMessage && promptPrelude.Some? && Bodies(encoding.unicode, promptPrelude.value, true) != []
    ensures split.Some? ==>
      (Sum(Tokens(split.value)) == encoding.estimateText(projectionText)
       <==> Conserves(encoding.estimateText(projectionText), Weights(Buckets(encoding, promptPrelude.value))))
    ensures split.Some? ==> forall i :: 0 <= i < |split.value| ==> split.value[i].estimatedTokens > 0
    ensures split.Some? ==>
      SplitInto(encoding, promptPrelude.value, encoding.estimateText(projectionText), split.value)
  {
    if !isSystemMessage || promptPrelude.None? { return None; }
    var buckets := PromptPreludeBuckets(encoding, promptPrelude.value);
    if buckets == [] { return None; }
    if |buckets| == 1 && buckets[0].kind == System { return None; }
    var totalTokens := encoding.estimateText(projectionText);
    var distributed := DistributeTokensByWeight(totalTokens, Weights(buckets));
    if Sum(Weights(buckets)) == 0 {
      FirstOnly(totalTokens, |buckets|);
    } else {
      SharesSumToTotal(totalTokens, Weights(buckets), distributed);
    }
    DroppingZerosKeepsTheSum(buckets, distributed);
    PartsOfBuckets(encoding, promptPrelude.value, totalTokens, distributed);
    split := Some(NonzeroSegments(buckets, distributed));
  }

  lemma PartsOfBuckets(encoding: Encoding, sections: seq<Section>, total: nat, shares: seq<nat>)
    requires Bodies(encoding.unicode, sections, true) != []
    requires |shares| == |Buckets(encoding, sections)| && SharedOut(total, Weights(Buckets(encoding, sections)), shares)
    ensures SplitInto(encoding, sections, total, NonzeroSegments(Buckets(encoding, sections), shares))
  {
    var buckets := Buckets(encoding, sections);
    var system, skills := Bodies(encoding.unicode, sections, false), Bodies(encoding.unicode, sections, true);
    if system == [] {
      assert buckets == [Bucket(SkillDiscovery, WeightOf(encoding, skills))];
      assert Weights(buckets) == [WeightOf(encoding, skills)] && shares == [shares[0]];
      SegmentOfOne(buckets[0], shares[0]);
    } else {
      assert buckets == [Bucket(System, WeightOf(encoding, system)),
                         Bucket(SkillDiscovery, WeightOf(encoding, skills))];
      assert Weights(buckets) == [WeightOf(encoding, system), WeightOf(encoding, skills)];
      assert shares == [shares[0], shares[1]];
      SegmentsOfTwo(buckets[0], buckets[1], shares[0], shares[1]);
    }
  }

  lemma SegmentOfOne(bucket: Bucket, share: nat)
    ensures NonzeroSegments([bucket], [share]) == Part(bucket.kind, share)
  {
    assert [bucket][..0] == [] && [share][..0] == [];
  }

  lemma SegmentsOfTwo(first: Bucket, second: Bucket, a: nat, b: nat)
    ensures NonzeroSegments([first, second], [a, b]) == Part(first.kind, a) + Part(second.kind, b)
  {
    assert [first, second][..1] == [first] && [a, b][..1] == [a];
    SegmentOfOne(first, a);
  }
}
