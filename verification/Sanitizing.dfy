/** The sanitizer of the policy gateway, which does not merge, and when it agrees with the merging redactor. */
module Sanitizing {
  import opened Prelude
  import opened Redaction
  import opened Sorting

  /** At least one character lies between the two. */
  predicate Apart(a: Span, b: Span) {
    a.end < b.start || b.end < a.start
  }

  /** No character is in both, though they may touch. */
  predicate Disjoint(a: Span, b: Span) {
    a.end <= b.start || b.end <= a.start
  }

  /** A rule that is known gives its replacement, if it has one; everything else gets the default. */
  function ReplacementFor(f: Finding, rules: map<string, Option<string>>, default: string): string {
    if f.ruleId in rules && rules[f.ruleId].Some? then rules[f.ruleId].value else default
  }

  function RuleSpans(findings: seq<Finding>, rules: map<string, Option<string>>, default: string): seq<Span> {
    if findings == [] then []
    else
      var f := findings[0];
      (if f.start.Some? && f.end.Some? then
         [Span(f.start.value, f.end.value, ReplacementFor(f, rules, default))]
       else []) +
      RuleSpans(findings[1..], rules, default)
  }

  predicate Later(a: Span, b: Span) {
    a.start > b.start || (a.start == b.start && a.end >= b.end)
  }

  /** Slicing never fails in the source: bounds beyond the text count as its end. */
  function SpliceClamped(text: string, s: Span): string {
    text[..if s.start <= |text| then s.start else |text|] + s.replacement +
      text[if s.end <= |text| then s.end else |text|..]
  }

  /** Where the replacement goes and what it takes away. */
  lemma SpliceClampedIs(text: string, s: Span)
    ensures s.start >= |text| && s.end >= |text| ==> SpliceClamped(text, s) == text + s.replacement
    ensures s.start <= |text| <= s.end ==> SpliceClamped(text, s) == text[..s.start] + s.replacement
    ensures s.start <= |text| && s.end <= |text| ==>
              SpliceClamped(text, s) == text[..s.start] + s.replacement + text[s.end..]
    ensures s.start >= |text| >= s.end ==> SpliceClamped(text, s) == text + s.replacement + text[s.end..]
  {
    assert text[..|text|] == text && text[|text|..] == [];
    assert text + s.replacement + [] == text + s.replacement;
    if s.start <= |text| {
      assert text[..s.start] + s.replacement + [] == text[..s.start] + s.replacement;
    }
  }

  function SplicedInTurn(text: string, spans: seq<Span>): string
    decreases |spans|
  {
    if spans == [] then text else SplicedInTurn(SpliceClamped(text, spans[0]), spans[1..])
  }

  lemma RuleSpansStep(spans: seq<Span>, findings: seq<Finding>, i: nat, rules: map<string, Option<string>>,
                      default: string)
    requires i < |findings|
    ensures
      var (f, rest) := (findings[i], RuleSpans(findings[i + 1..], rules, default));
      spans + RuleSpans(findings[i..], rules, default) ==
        if f.start.Some? && f.end.Some? then
          (spans + [Span(f.start.value, f.end.value, ReplacementFor(f, rules, default))]) + rest
        else spans + rest
  {
    assert findings[i..][0] == findings[i] && findings[i..][1..] == findings[i + 1..];
  }

  /** The policy gateway: sort by descending offsets, then splice without merging. */
  method Sanitize(text: string, findings: seq<Finding>, rules: map<string, Option<string>>, default: string)
    returns (sanitized: string)
    ensures sanitized == SplicedInTurn(text, Sort(RuleSpans(findings, rules, default), Later))
  {
    var spans: seq<Span> := [];
    for i := 0 to |findings|
      invariant RuleSpans(findings, rules, default) == spans + RuleSpans(findings[i..], rules, default)
    {
      var f := findings[i];
      RuleSpansStep(spans, findings, i, rules, default);
      if f.start.None? || f.end.None? {
        continue;
      }
      spans := spans + [Span(f.start.value, f.end.value, ReplacementFor(f, rules, default))];
    }
    assert findings[|findings|..] == [] && spans == RuleSpans(findings, rules, default);
    if spans == [] {
      assert Sort(spans, Later) == [];
      return text;
    }
    var ordered := Sort(spans, Later);
    sanitized := text;
    for i := 0 to |ordered|
      invariant SplicedInTurn(text, ordered) == SplicedInTurn(sanitized, ordered[i..])
    {
      assert ordered[i..][0] == ordered[i] && ordered[i..][1..] == ordered[i + 1..];
      sanitized := SpliceClamped(sanitized, ordered[i]);
    }
    assert ordered[|ordered|..] == [];
  }

  lemma {:induction false} InTurnIsRightToLeft(text: string, spans: seq<Span>)
    requires InSequence(Reversed(spans)) && InRange(text, Reversed(spans))
    ensures SplicedInTurn(text, spans) == SpliceRightToLeft(text, Reversed(spans))
    decreases |spans|
  {
    if spans != [] {
      ReversedAt(spans, |spans| - 1);
      StillInRange(text, Reversed(spans));
      assert Init(Reversed(spans)) == Reversed(spans[1..]);
      InTurnIsRightToLeft(Splice(text, spans[0]), spans[1..]);
    }
  }

  /** Spans that do not overlap, in whatever order: sanitizing reads left to right, each span giving way to its own
      replacement and everything else unchanged. */
  lemma SanitizeDisjoint(text: string, spans: seq<Span>)
    requires InRange(text, spans) && Pairwise(spans, Disjoint)
    ensures
      var ordered := Reversed(Sort(spans, Later));
      && multiset(ordered) == multiset(spans) && InSequence(ordered) && InRange(text, ordered)
      && SplicedInTurn(text, Sort(spans, Later)) == LeftToRight(text, 0, ordered)
  {
    var descending := Sort(spans, Later);
    SortSorts(spans, Later);
    SortElements(spans, Later);
    SortKeepsPairwise(spans, Later, Disjoint);
    forall s | s in descending
      ensures s.start <= s.end <= |text|
    {
      assert s in spans;
    }
    ReversedElements(descending);
    ReversedIsInSequence(descending);
    InTurnIsRightToLeft(text, descending);
    RightToLeftIsLeftToRight(text, Reversed(descending));
  }

  /** A finding with both offsets gives a span with the replacement of its rule, if that is known and has one, or with
      the default; nothing else gives a span. */
  lemma {:induction false} RuleSpansAre(findings: seq<Finding>, rules: map<string, Option<string>>, default: string)
    ensures forall i :: 0 <= i < |findings| && findings[i].start.Some? && findings[i].end.Some? ==>
              SpanGiven(findings[i], rules, default) in RuleSpans(findings, rules, default)
    ensures forall s :: s in RuleSpans(findings, rules, default) ==>
              exists i :: 0 <= i < |findings| && findings[i].start.Some? && findings[i].end.Some? &&
                          s == SpanGiven(findings[i], rules, default)
  {
    if findings != [] {
      var f, rest := findings[0], findings[1..];
      RuleSpansAre(rest, rules, default);
      assert forall i :: 0 < i < |findings| ==> findings[i] == rest[i - 1];
      forall s | s in RuleSpans(findings, rules, default)
        ensures exists i :: 0 <= i < |findings| && findings[i].start.Some? && findings[i].end.Some? &&
                            s == SpanGiven(findings[i], rules, default)
      {
        if s in RuleSpans(rest, rules, default) {
          var i :| 0 <= i < |rest| && rest[i].start.Some? && rest[i].end.Some? &&
                   s == SpanGiven(rest[i], rules, default);
          assert findings[i + 1] == rest[i];
        } else {
          assert s == SpanGiven(findings[0], rules, default);
        }
      }
    }
  }

  function SpanGiven(f: Finding, rules: map<string, Option<string>>, default: string): Span
    requires f.start.Some? && f.end.Some?
  {
    if f.ruleId !in rules then Span(f.start.value, f.end.value, default)
    else
      match rules[f.ruleId]
      case None => Span(f.start.value, f.end.value, default)
      case Some(replacement) => Span(f.start.value, f.end.value, replacement)
  }

  /** The part is in the text, from that place on. */
  predicate PartAt(text: string, part: string, at: nat) {
    at + |part| <= |text| && text[at..at + |part|] == part
  }

  lemma PartFirst(before: string, part: string, after: string)
    ensures PartAt(before + (part + after), part, |before|)
  {
  }

  lemma PartLater(before: string, middle: string, after: string, part: string, at: nat)
    requires PartAt(after, part, at)
    ensures PartAt(before + (middle + after), part, |before| + |middle| + at)
  {
    var whole, i := before + (middle + after), |before| + |middle| + at;
    var there := whole[i..i + |part|];
    forall j | 0 <= j < |part|
      ensures there[j] == part[j]
    {
      assert there[j] == whole[i + j] == after[at + j] == after[at..at + |part|][j];
    }
    assert there == part;
  }

  /** Read left to right, every span's replacement is there. */
  lemma {:induction false} ReplacementIsThere(text: string, from: nat, spans: seq<Span>, k: nat) returns (at: nat)
    requires InSequence(spans) && InRange(text, spans) && from <= |text| && k < |spans| && from <= spans[0].start
    ensures PartAt(LeftToRight(text, from, spans), spans[k].replacement, at)
    decreases k
  {
    UnfoldLeft(text, from, spans);
    var before, first, after := text[from..spans[0].start], spans[0], LeftToRight(text, spans[0].end, spans[1..]);
    if k > 0 {
      var later := ReplacementIsThere(text, first.end, spans[1..], k - 1);
      PartLater(before, first.replacement, after, spans[k].replacement, later);
      at := |before| + |first.replacement| + later;
    } else {
      PartFirst(before, first.replacement, after);
      at := |before|;
    }
  }

  /** So when no two findings overlap, a known rule's own replacement is in the sanitized text, and the default for the
      others. */
  lemma OwnReplacementAppears(text: string, findings: seq<Finding>, rules: map<string, Option<string>>, default: string,
                              i: nat)
    returns (at: nat)
    requires i < |findings| && findings[i].start.Some? && findings[i].end.Some?
    requires
      var spans := RuleSpans(findings, rules, default);
      InRange(text, spans) && Pairwise(spans, Disjoint)
    ensures
      var sanitized := SplicedInTurn(text, Sort(RuleSpans(findings, rules, default), Later));
      var rule := findings[i].ruleId;
      var own := if rule in rules && rules[rule] != None then rules[rule].value else default;
      PartAt(sanitized, own, at)
  {
    var spans, own := RuleSpans(findings, rules, default), SpanGiven(findings[i], rules, default);
    assert own in spans by {
      RuleSpansAre(findings, rules, default);
    }
    SanitizeDisjoint(text, spans);
    var ordered := Reversed(Sort(spans, Later));
    var k := PlaceOf(spans, ordered, own);
    at := ReplacementIsThere(text, 0, ordered, k);
  }

  lemma PlaceOf(spans: seq<Span>, ordered: seq<Span>, s: Span) returns (k: nat)
    requires multiset(ordered) == multiset(spans) && s in spans
    ensures k < |ordered| && ordered[k] == s
  {
    assert s in multiset(ordered);
    k :| 0 <= k < |ordered| && ordered[k] == s;
  }

  lemma ReversedIsInSequence(descending: seq<Span>)
    requires SortedBy(descending, Later) && Pairwise(descending, Disjoint)
    requires forall s :: s in descending ==> s.start <= s.end
    ensures InSequence(Reversed(descending))
  {
    var ordered := Reversed(descending);
    forall i, j | 0 <= i < j < |ordered|
      ensures ordered[i].end <= ordered[j].start
    {
      ReversedAt(descending, i);
      ReversedAt(descending, j);
      var a, b := descending[|ordered| - 1 - j], descending[|ordered| - 1 - i];
      assert Disjoint(a, b) && Later(a, b);
      assert a in descending && b in descending;
    }
    forall k | 0 <= k < |ordered| ensures ordered[k] in descending {
      ReversedAt(descending, k);
    }
  }

  /******* When the two redactors agree *******/

  /** Ordering by offsets leaves no choice among spans with one replacement. */
  lemma SequenceIsSorted(spans: seq<Span>, ordered: seq<Span>)
    requires multiset(ordered) == multiset(spans) && InSequence(ordered) && Markers(ordered)
    ensures Sort(spans, Earlier) == ordered && SortedSpans(ordered)
  {
    forall i, j | 0 <= i < j < |ordered| ensures Earlier(ordered[i], ordered[j]) {
      assert ordered[i].end <= ordered[j].start;
    }
    SortSorts(spans, Earlier);
    SortElements(spans, Earlier);
    forall a, b | a in ordered && b in ordered && Earlier(a, b) && Earlier(b, a) ensures a == b {
      assert a.replacement == b.replacement;
    }
    SortedOnce(Sort(spans, Earlier), ordered, Earlier);
  }

  /** Characters removed by spans in sequence. */
  function Removed(spans: seq<Span>): int {
    if spans == [] then 0 else Removed(Init(spans)) + (Last(spans).end - Last(spans).start)
  }

  lemma InitInSequence(text: string, spans: seq<Span>)
    requires InSequence(spans) && InRange(text, spans) && spans != []
    ensures InSequence(Init(spans)) && InRange(text, Init(spans))
  {
    SliceOfSpans(text, spans, 0, |spans| - 1);
    assert Init(spans) == spans[0..|spans| - 1];
  }

  /** Splicing n spans in sequence removes what they cover and adds n markers. */
  lemma {:induction false} SplicedLength(text: string, spans: seq<Span>)
    requires InSequence(spans) && InRange(text, spans) && Markers(spans)
    ensures |SpliceRightToLeft(text, spans)| == |text| - Removed(spans) + 10 * |spans|
    decreases |spans|
  {
    if spans != [] {
      StillInRange(text, spans);
      var s := Last(spans);
      assert s in spans;
      SplicedLength(Splice(text, s), Init(spans));
      assert |Splice(text, s)| == |text| - (s.end - s.start) + 10;
    }
  }

  /** Merging spans in sequence removes the same characters. */
  lemma {:induction false} MergedRemoves(text: string, spans: seq<Span>)
    requires InSequence(spans) && InRange(text, spans)
    ensures Removed(Merged(spans)) == Removed(spans) && |Merged(spans)| <= |spans|
    ensures spans != [] ==> Merged(spans) != [] && Last(Merged(spans)).end == Last(spans).end
  {
    if spans != [] {
      var before, s := Init(spans), Last(spans);
      InitInSequence(text, spans);
      MergedRemoves(text, before);
      assert s.start <= s.end by {
        assert s in spans;
      }
      assert before != [] ==> Last(before).end <= s.start by {
        assert before != [] ==> spans[|spans| - 2].end <= s.start;
      }
      MergeOneRemoves(Merged(before), s);
    }
  }

  lemma RemovedSnoc(spans: seq<Span>, s: Span)
    ensures Removed(spans + [s]) == Removed(spans) + (s.end - s.start)
  {
    assert Init(spans + [s]) == spans && Last(spans + [s]) == s;
  }

  lemma MergeOneRemoves(merged: seq<Span>, s: Span)
    requires s.start <= s.end && (merged != [] ==> Last(merged).end <= s.start)
    ensures
      var more := MergeOne(merged, s);
      && Removed(more) == Removed(merged) + (s.end - s.start) && |more| <= |merged| + 1
      && more != [] && Last(more).end == s.end
  {
    if merged != [] && s.start <= Last(merged).end {
      RemovedSnoc(Init(merged), Last(merged).(end := s.end));
    } else {
      RemovedSnoc(merged, s);
    }
  }

  /** Merging spans in sequence changes their number if and only if two of them touch. */
  lemma {:induction false} MergedCount(text: string, spans: seq<Span>)
    requires InSequence(spans) && InRange(text, spans)
    ensures |Merged(spans)| == |spans| <==> Pairwise(spans, Apart)
  {
    if spans != [] {
      var before, s := Init(spans), Last(spans);
      InitInSequence(text, spans);
      MergedCount(text, before);
      MergedRemoves(text, before);
      ApartSnoc(spans);
      var joins := before != [] && s.start <= Last(before).end;
      assert |Merged(spans)| == |Merged(before)| + if joins then 0 else 1;
      assert Pairwise(spans, Apart) <==> Pairwise(before, Apart) && !joins;
    }
  }

  lemma ApartSnoc(spans: seq<Span>)
    requires InSequence(spans) && spans != []
    ensures Pairwise(spans, Apart) <==>
            Pairwise(Init(spans), Apart) && (|spans| > 1 ==> Last(Init(spans)).end < Last(spans).start)
  {
    var before, n := Init(spans), |spans| - 1;
    assert forall i :: 0 <= i < n ==> before[i] == spans[i];
    if Pairwise(spans, Apart) && n > 0 {
      assert Apart(spans[n - 1], spans[n]) && spans[n - 1].end <= spans[n].start;
    }
    if Pairwise(before, Apart) && (n > 0 ==> spans[n - 1].end < spans[n].start) {
      forall i, j | 0 <= i < j < |spans| ensures Apart(spans[i], spans[j]) {
        if j < n {
          assert Apart(before[i], before[j]);
        } else {
          assert i < n - 1 ==> spans[i].end <= spans[n - 1].start;
        }
      }
    }
  }

  /** In-range findings that do not overlap, with the default marker throughout: the sanitized text is longer than the
      merged one by one marker, ten characters, for each span that merging saves, and the two are equal if and only if
      no two spans touch. */
  lemma RedactorsAgreeIff(text: string, findings: seq<Finding>, rules: map<string, Option<string>>)
    requires InRange(text, SpansOf(findings)) && Pairwise(SpansOf(findings), Disjoint)
    requires forall f :: f in findings ==> ReplacementFor(f, rules, MARKER) == MARKER
    ensures
      var spans := SpansOf(findings);
      var sanitized := SplicedInTurn(text, Sort(RuleSpans(findings, rules, MARKER), Later));
      && (sanitized == Rendered(text, spans) <==> Pairwise(spans, Apart))
      && |sanitized| == |Rendered(text, spans)| + 10 * (|spans| - |Merged(Sort(spans, Earlier))|)
  {
    SameSpans(findings, rules);
    SpansOfUseMarker(findings);
    MergedRendering(text, findings);
    SpansAgreeIff(text, SpansOf(findings));
  }

  lemma SpansAgreeIff(text: string, spans: seq<Span>)
    requires InRange(text, spans) && Pairwise(spans, Disjoint) && Markers(spans)
    ensures
      var merged, sanitized := Merged(Sort(spans, Earlier)), SplicedInTurn(text, Sort(spans, Later));
      && InSequence(merged) && InRange(text, merged)
      && (sanitized == SpliceRightToLeft(text, merged) <==> Pairwise(spans, Apart))
      && |sanitized| == |SpliceRightToLeft(text, merged)| + 10 * (|spans| - |merged|)
  {
    DisjointInOrder(text, spans);
    SequenceAgrees(text, Sort(spans, Earlier));
    SortElements(spans, Earlier);
    SortPairwiseIff(spans, Earlier, Apart);
  }

  /** Sanitizing spans that do not overlap splices them in sorted order, without merging. */
  lemma DisjointInOrder(text: string, spans: seq<Span>)
    requires InRange(text, spans) && Pairwise(spans, Disjoint) && Markers(spans)
    ensures
      var ordered := Sort(spans, Earlier);
      && InSequence(ordered) && InRange(text, ordered) && Markers(ordered) && SortedSpans(ordered)
      && SplicedInTurn(text, Sort(spans, Later)) == SpliceRightToLeft(text, ordered)
  {
    SanitizeDisjoint(text, spans);
    SortElements(spans, Later);
    var ordered := Reversed(Sort(spans, Later));
    ReversedElements(Sort(spans, Later));
    SequenceIsSorted(spans, ordered);
    RightToLeftIsLeftToRight(text, ordered);
  }

  lemma SequenceAgrees(text: string, ordered: seq<Span>)
    requires InSequence(ordered) && InRange(text, ordered) && Markers(ordered) && SortedSpans(ordered)
    ensures InSequence(Merged(ordered)) && InRange(text, Merged(ordered))
    ensures SpliceRightToLeft(text, ordered) == SpliceRightToLeft(text, Merged(ordered)) <==> Pairwise(ordered, Apart)
    ensures |SpliceRightToLeft(text, ordered)| ==
              |SpliceRightToLeft(text, Merged(ordered))| + 10 * (|ordered| - |Merged(ordered)|)
  {
    SequenceLengths(text, ordered);
    if Pairwise(ordered, Apart) {
      ApartIsUnmerged(ordered);
    }
  }

  lemma UnmergedLast(spans: seq<Span>, before: seq<Span>, s: Span)
    requires spans != [] && before == Init(spans) && s == Last(spans)
    requires Merged(before) == before && (before != [] ==> Last(before).end < s.start)
    ensures Merged(spans) == spans
  {
    assert before + [s] == spans;
  }

  /** Each span starts after the one before it has ended, with a gap. */
  ghost predicate Gapped(spans: seq<Span>) {
    forall i :: 0 < i < |spans| ==> spans[i - 1].end < spans[i].start
  }

  lemma {:induction false} GappedIsUnmerged(spans: seq<Span>)
    requires Gapped(spans)
    ensures Merged(spans) == spans
  {
    if spans != [] {
      GappedIsUnmerged(Init(spans));
      UnmergedLast(spans, Init(spans), Last(spans));
    }
  }

  lemma ApartIsUnmerged(ordered: seq<Span>)
    requires InSequence(ordered) && Pairwise(ordered, Apart)
    ensures Merged(ordered) == ordered
  {
    assert forall i :: 0 < i < |ordered| ==> Apart(ordered[i - 1], ordered[i]);
    GappedIsUnmerged(ordered);
  }

  lemma SequenceLengths(text: string, ordered: seq<Span>)
    requires InSequence(ordered) && InRange(text, ordered) && Markers(ordered) && SortedSpans(ordered)
    ensures InSequence(Merged(ordered)) && InRange(text, Merged(ordered)) && |Merged(ordered)| <= |ordered|
    ensures |Merged(ordered)| == |ordered| <==> Pairwise(ordered, Apart)
    ensures |SpliceRightToLeft(text, ordered)| ==
              |SpliceRightToLeft(text, Merged(ordered))| + 10 * (|ordered| - |Merged(ordered)|)
  {
    MergedIsSeparated(ordered);
    MergedStaysInRange(text, ordered);
    SplicedLength(text, ordered);
    SplicedLength(text, Merged(ordered));
    MergedRemoves(text, ordered);
    MergedCount(text, ordered);
  }

  lemma {:induction false} SameSpans(findings: seq<Finding>, rules: map<string, Option<string>>)
    requires forall f :: f in findings ==> ReplacementFor(f, rules, MARKER) == MARKER
    ensures RuleSpans(findings, rules, MARKER) == SpansOf(findings)
  {
    if findings != [] {
      assert findings[0] in findings && forall f :: f in findings[1..] ==> f in findings;
      SameSpans(findings[1..], rules);
    }
  }
}
