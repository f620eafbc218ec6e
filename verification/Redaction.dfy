/** Replacing spans of text by markers: the merging redactor of the safety engine. */
module Redaction {
  import opened Prelude
  import opened Sorting

  /** A span of text and what replaces it. */
  datatype Span = Span(start: nat, end: nat, replacement: string)

  /** Offsets may be absent; a rule may name its own replacement. */
  datatype Finding = Finding(start: Option<nat>, end: Option<nat>, ruleId: string)

  /** Ten characters. */
  const MARKER := "[REDACTED]"

  /** The span of a finding; a finding without both offsets has none. */
  function OwnSpan(f: Finding): seq<Span> {
    if f.start.Some? && f.end.Some? then [Span(f.start.value, f.end.value, MARKER)] else []
  }

  function SpansOf(findings: seq<Finding>): seq<Span> {
    if findings == [] then [] else OwnSpan(findings[0]) + SpansOf(findings[1..])
  }

  ghost predicate InRange(text: string, spans: seq<Span>) {
    forall s :: s in spans ==> s.start <= s.end <= |text|
  }

  predicate Earlier(a: Span, b: Span) {
    a.start < b.start || (a.start == b.start && a.end <= b.end)
  }

  function Splice(text: string, s: Span): string
    requires s.start <= s.end <= |text|
  {
    text[..s.start] + s.replacement + text[s.end..]
  }

  function Max(a: nat, b: nat): nat {
    if a >= b then a else b
  }

  /** Merging sorted spans, one at a time, into the ones before. */
  function Merged(spans: seq<Span>): seq<Span> {
    if spans == [] then []
    else MergeOne(Merged(Init(spans)), Last(spans))
  }

  function MergeOne(merged: seq<Span>, s: Span): seq<Span> {
    if merged != [] && s.start <= Last(merged).end then
      Init(merged) + [Last(merged).(end := Max(Last(merged).end, s.end))]
    else merged + [s]
  }

  /******* The reference: which characters survive, and where the markers go *******/

  /** Some span covers the character at i. */
  predicate Covered(spans: seq<Span>, i: nat) {
    exists k :: 0 <= k < |spans| && spans[k].start <= i < spans[k].end
  }

  /** Some span begins at, ends at or contains the boundary before the character at b. */
  predicate Touched(spans: seq<Span>, b: nat) {
    exists k :: 0 <= k < |spans| && spans[k].start <= b <= spans[k].end
  }

  /** One marker for every connected group of spans, at its left end. */
  function MarkerAt(spans: seq<Span>, b: nat): string {
    if Touched(spans, b) && !(b > 0 && Covered(spans, b - 1)) then MARKER else []
  }

  function RenderAfterMarker(text: string, spans: seq<Span>, b: nat): string
    requires b <= |text|
    decreases |text| - b
  {
    if b == |text| then []
    else
      (if Covered(spans, b) then [] else [text[b]]) +
      (MarkerAt(spans, b + 1) + RenderAfterMarker(text, spans, b + 1))
  }

  /** Read left to right: a character survives, in order, iff no span covers it. */
  function Rendered(text: string, spans: seq<Span>): string {
    MarkerAt(spans, 0) + RenderAfterMarker(text, spans, 0)
  }

  /** The rendering depends only on the set of spans: order and repetition do not matter. */
  lemma RenderedByMembership(text: string, a: seq<Span>, b: seq<Span>)
    requires forall s :: s in a <==> s in b
    ensures Rendered(text, a) == Rendered(text, b)
  {
    forall i: nat
      ensures Covered(a, i) == Covered(b, i) && Touched(a, i) == Touched(b, i)
    {
      CoverageByMembership(a, b, i);
      CoverageByMembership(b, a, i);
    }
    SameCoverage(text, a, b, 0);
  }

  lemma CoverageByMembership(a: seq<Span>, b: seq<Span>, i: nat)
    requires forall s :: s in a ==> s in b
    ensures Covered(a, i) ==> Covered(b, i)
    ensures Touched(a, i) ==> Touched(b, i)
  {
    if Covered(a, i) {
      var k :| 0 <= k < |a| && a[k].start <= i < a[k].end;
      assert a[k] in b;
    }
    if Touched(a, i) {
      var k :| 0 <= k < |a| && a[k].start <= i <= a[k].end;
      assert a[k] in b;
    }
  }

  lemma {:induction false} SameCoverage(text: string, a: seq<Span>, b: seq<Span>, from: nat)
    requires from <= |text|
    requires forall i: nat :: Covered(a, i) == Covered(b, i) && Touched(a, i) == Touched(b, i)
    ensures RenderAfterMarker(text, a, from) == RenderAfterMarker(text, b, from)
    decreases |text| - from
  {
    if from < |text| {
      SameCoverage(text, a, b, from + 1);
      assert Covered(a, from) == Covered(b, from) && Touched(a, from + 1) == Touched(b, from + 1);
    }
  }

  /******* Merging *******/

  /** Increasing, with at least one character between neighbours. */
  ghost predicate Separated(spans: seq<Span>) {
    && (forall k :: 0 <= k < |spans| ==> spans[k].start <= spans[k].end)
    && (forall i, j :: 0 <= i < j < |spans| ==> spans[i].end < spans[j].start)
  }

  /** One after the other, without overlap. */
  ghost predicate InSequence(spans: seq<Span>) {
    && (forall k :: 0 <= k < |spans| ==> spans[k].start <= spans[k].end)
    && (forall i, j :: 0 <= i < j < |spans| ==> spans[i].end <= spans[j].start)
  }

  lemma MergeOneCoverage(merged: seq<Span>, s: Span, i: nat)
    requires Separated(merged) && s.start <= s.end
    requires merged != [] ==> Last(merged).start <= s.start
    ensures Covered(MergeOne(merged, s), i) <==> Covered(merged, i) || s.start <= i < s.end
    ensures Touched(MergeOne(merged, s), i) <==> Touched(merged, i) || s.start <= i <= s.end
  {
    var m, n := MergeOne(merged, s), |merged|;
    if n > 0 && s.start <= Last(merged).end {
      assert forall k :: 0 <= k < n - 1 ==> m[k] == merged[k];
      assert m[n - 1] == Last(merged).(end := Max(Last(merged).end, s.end)) && merged[n - 1] == Last(merged);
    } else {
      assert forall k :: 0 <= k < n ==> m[k] == merged[k];
      assert m[n] == s;
    }
  }

  lemma CoverageSnoc(spans: seq<Span>, s: Span, i: nat)
    ensures Covered(spans + [s], i) <==> Covered(spans, i) || s.start <= i < s.end
    ensures Touched(spans + [s], i) <==> Touched(spans, i) || s.start <= i <= s.end
  {
    var all := spans + [s];
    assert forall k :: 0 <= k < |spans| ==> all[k] == spans[k];
    assert all[|spans|] == s;
  }

  ghost predicate SortedSpans(spans: seq<Span>) {
    SortedBy(spans, Earlier) && forall s :: s in spans ==> s.start <= s.end
  }

  lemma SortedInit(spans: seq<Span>)
    requires SortedSpans(spans) && spans != []
    ensures SortedSpans(Init(spans)) && Last(spans).start <= Last(spans).end
    ensures Init(spans) != [] ==> Last(Init(spans)).start <= Last(spans).start
    ensures forall s :: s in Init(spans) ==> s in spans
  {
    assert Last(spans) in spans;
    if Init(spans) != [] {
      assert Earlier(spans[|spans| - 2], spans[|spans| - 1]);
    }
  }

  /** Merged spans are sorted and pairwise separated. */
  lemma {:induction false} MergedIsSeparated(spans: seq<Span>)
    requires SortedSpans(spans)
    ensures Separated(Merged(spans))
    ensures spans != [] ==> Merged(spans) != [] && Last(Merged(spans)).start <= Last(spans).start
  {
    if spans != [] {
      SortedInit(spans);
      MergedIsSeparated(Init(spans));
      MergeOneSeparated(Merged(Init(spans)), Last(spans));
    }
  }

  /** Merged spans cover and touch exactly what the input spans do. */
  lemma {:induction false} MergedIsUnion(spans: seq<Span>, i: nat)
    requires SortedSpans(spans)
    ensures Covered(Merged(spans), i) == Covered(spans, i) && Touched(Merged(spans), i) == Touched(spans, i)
  {
    if spans != [] {
      SortedInit(spans);
      var before, s := Init(spans), Last(spans);
      assert before + [s] == spans;
      MergedIsUnion(before, i);
      MergedIsSeparated(before);
      MergeOneCoverage(Merged(before), s, i);
      CoverageSnoc(before, s, i);
    }
  }

  ghost predicate Markers(spans: seq<Span>) {
    forall s :: s in spans ==> s.replacement == MARKER
  }

  lemma {:induction false} MergedStaysInRange(text: string, spans: seq<Span>)
    requires SortedSpans(spans) && InRange(text, spans) && Markers(spans)
    ensures InRange(text, Merged(spans)) && Markers(Merged(spans))
  {
    if spans != [] {
      SortedInit(spans);
      assert Last(spans) in spans;
      var merged, s := Merged(Init(spans)), Last(spans);
      MergedStaysInRange(text, Init(spans));
      forall m | m in MergeOne(merged, s)
        ensures m.start <= m.end <= |text| && m.replacement == MARKER
      {
        assert merged != [] ==> Last(merged) in merged;
        assert m == s || m in merged || (merged != [] && m == Last(merged).(end := Max(Last(merged).end, s.end)));
      }
    }
  }

  lemma MergeOneSeparated(merged: seq<Span>, s: Span)
    requires Separated(merged) && s.start <= s.end
    requires merged != [] ==> Last(merged).start <= s.start
    ensures Separated(MergeOne(merged, s))
    ensures Last(MergeOne(merged, s)).start <= s.start
  {
    var m, n := MergeOne(merged, s), |merged|;
    if n > 0 && s.start <= Last(merged).end {
      assert forall k :: 0 <= k < n - 1 ==> m[k] == merged[k];
      assert m[n - 1].start == merged[n - 1].start;
    } else if n > 0 {
      assert forall k :: 0 <= k < n - 1 ==> merged[k].end < merged[n - 1].start;
    }
  }

  /******* Splicing *******/

  /** Replace the spans from the last to the first, so that earlier offsets stay valid. */
  function SpliceRightToLeft(text: string, spans: seq<Span>): string
    requires InSequence(spans) && InRange(text, spans)
    decreases |spans|
  {
    if spans == [] then text
    else
      var s := Last(spans);
      assert s in spans;
      StillInRange(text, spans);
      SpliceRightToLeft(Splice(text, s), Init(spans))
  }

  lemma StillInRange(text: string, spans: seq<Span>)
    requires InSequence(spans) && InRange(text, spans) && spans != []
    ensures Last(spans).start <= Last(spans).end <= |text|
    ensures InSequence(Init(spans)) && InRange(Splice(text, Last(spans)), Init(spans))
    ensures InRange(text, Init(spans)) && InRange(text, spans[1..]) && InSequence(spans[1..])
    ensures forall s :: s in Init(spans) ==> s.end <= Last(spans).start
  {
    var n := |spans|;
    assert InSequence(Init(spans)) && InRange(text, Init(spans)) by {
      SliceOfSpans(text, spans, 0, n - 1);
      assert Init(spans) == spans[0..n - 1];
    }
    assert InRange(text, spans[1..]) && InSequence(spans[1..]) by {
      SliceOfSpans(text, spans, 1, n);
      assert spans[1..] == spans[1..n];
    }
    assert spans[n - 1] in spans;
    InitEndsEarlier(spans);
    assert |Splice(text, Last(spans))| >= Last(spans).start;
  }

  lemma InitEndsEarlier(spans: seq<Span>)
    requires InSequence(spans) && spans != []
    ensures forall s :: s in Init(spans) ==> s.end <= Last(spans).start
  {
    var front, n := Init(spans), |spans|;
    forall k | 0 <= k < |front|
      ensures front[k].end <= Last(spans).start
    {
      assert spans[k].end <= spans[n - 1].start;
    }
  }

  lemma SliceOfSpans(text: string, spans: seq<Span>, i: nat, j: nat)
    requires InSequence(spans) && InRange(text, spans) && i <= j <= |spans|
    ensures InSequence(spans[i..j]) && InRange(text, spans[i..j]) && (Separated(spans) ==> Separated(spans[i..j]))
    ensures i < j ==> spans[i..j][0] == spans[i]
  {
    var part := spans[i..j];
    assert forall k :: 0 <= k < |part| ==> part[k] == spans[i + k];
    assert forall s :: s in part ==> s in spans;
  }

  function LeftToRight(text: string, from: nat, spans: seq<Span>): string
    requires InSequence(spans) && InRange(text, spans) && from <= |text|
    requires spans != [] ==> from <= spans[0].start
    decreases |spans|
  {
    if spans == [] then text[from..]
    else
      StillInRange(text, spans);
      assert spans[0] in spans;
      text[from..spans[0].start] + (spans[0].replacement + LeftToRight(text, spans[0].end, spans[1..]))
  }

  lemma UnfoldLeft(text: string, from: nat, spans: seq<Span>)
    requires InSequence(spans) && InRange(text, spans) && from <= |text| && spans != [] && from <= spans[0].start
    ensures InSequence(spans[1..]) && InRange(text, spans[1..]) && spans[0].start <= spans[0].end <= |text|
    ensures |spans| > 1 ==> spans[0].end <= spans[1].start
    ensures LeftToRight(text, from, spans) ==
              text[from..spans[0].start] + (spans[0].replacement + LeftToRight(text, spans[0].end, spans[1..]))
  {
    StillInRange(text, spans);
    assert spans[0] in spans;
  }

  lemma SpliceOnly(text: string, from: nat, spans: seq<Span>)
    requires InSequence(spans) && InRange(text, spans) && from <= |text| && |spans| == 1 && from <= spans[0].start
    ensures spans[0].start <= spans[0].end <= |text|
    ensures LeftToRight(text, from, spans) == Splice(text, spans[0])[from..]
  {
    var s := spans[0];
    UnfoldLeft(text, from, spans);
    assert spans[1..] == [];
    assert Splice(text, s)[from..] == text[from..s.start] + (s.replacement + text[s.end..]);
  }

  /** The end of the sequence, seen from its first span and from the rest. */
  lemma EndOfRest(text: string, spans: seq<Span>)
    requires InSequence(spans) && InRange(text, spans) && |spans| > 1
    ensures spans[1..] != [] && Last(spans[1..]) == Last(spans) && Init(spans)[1..] == Init(spans[1..])
    ensures Init(spans)[0] == spans[0] && spans[0].start <= spans[0].end <= Last(spans).start <= |text|
    ensures spans[0].end <= spans[1].start
  {
    assert spans[0] in Init(spans) && Last(spans) in spans;
    InitEndsEarlier(spans);
  }

  lemma SpliceKeepsBefore(text: string, s: Span, from: nat, end: nat)
    requires from <= end <= s.start <= s.end <= |text|
    ensures end <= |Splice(text, s)| && Splice(text, s)[from..end] == text[from..end]
  {
    var text', before := Splice(text, s), text[..s.start];
    assert text'[..s.start] == before;
    assert text'[from..end] == text'[..s.start][from..end] && before[from..end] == text[from..end];
  }

  lemma {:induction false} SpliceLastFirst(text: string, from: nat, spans: seq<Span>)
    requires InSequence(spans) && InRange(text, spans) && spans != [] && from <= spans[0].start <= |text|
    requires InSequence(Init(spans)) && InRange(Splice(text, Last(spans)), Init(spans))
    requires Last(spans).start <= Last(spans).end <= |text| && from <= |Splice(text, Last(spans))|
    ensures LeftToRight(text, from, spans) == LeftToRight(Splice(text, Last(spans)), from, Init(spans))
    decreases |spans|
  {
    if |spans| == 1 {
      SpliceOnly(text, from, spans);
    } else {
      var s, first, rest := Last(spans), spans[0], spans[1..];
      var text' := Splice(text, s);
      EndOfRest(text, spans);
      StillInRange(text, spans);
      StillInRange(text, rest);
      SpliceLastFirst(text, first.end, rest);
      UnfoldLeft(text, from, spans);
      UnfoldLeft(text', from, Init(spans));
      SpliceKeepsBefore(text, s, from, first.start);
    }
  }

  /** Splicing right to left gives the left-to-right reading. */
  lemma {:induction false} RightToLeftIsLeftToRight(text: string, spans: seq<Span>)
    requires InSequence(spans) && InRange(text, spans)
    ensures SpliceRightToLeft(text, spans) == LeftToRight(text, 0, spans)
    decreases |spans|
  {
    if spans != [] {
      StillInRange(text, spans);
      RightToLeftIsLeftToRight(Splice(text, Last(spans)), Init(spans));
      assert spans[0] in spans;
      SpliceLastFirst(text, 0, spans);
    }
  }

  /** Between two neighbours nothing is covered or touched. */
  lemma GapIsUntouched(spans: seq<Span>, k: nat, i: nat)
    requires Separated(spans) && k <= |spans|
    requires k > 0 ==> spans[k - 1].end <= i
    requires k < |spans| ==> i < spans[k].start
    ensures !Covered(spans, i)
    ensures (k > 0 ==> spans[k - 1].end < i) ==> !Touched(spans, i)
  {
    forall j | 0 <= j < |spans|
      ensures !(spans[j].start <= i < spans[j].end)
      ensures (k > 0 ==> spans[k - 1].end < i) ==> !(spans[j].start <= i <= spans[j].end)
    {
      if j < k - 1 {
        assert spans[j].end < spans[k - 1].start;
      } else if j > k {
        assert spans[k].end < spans[j].start;
      }
    }
  }

  /** Where nothing is covered and no boundary in between is touched, the rendering copies the text. */
  lemma {:induction false} RenderCopies(text: string, spans: seq<Span>, b: nat, stop: nat)
    requires b < stop <= |text|
    requires forall i: nat :: b <= i < stop ==> !Covered(spans, i)
    requires forall i: nat :: b < i < stop ==> !Touched(spans, i)
    ensures RenderAfterMarker(text, spans, b) ==
            text[b..stop] + (MarkerAt(spans, stop) + RenderAfterMarker(text, spans, stop))
    decreases stop - b
  {
    assert text[b..stop] == [text[b]] + text[b + 1..stop];
    assert !Covered(spans, b);
    if b + 1 < stop {
      assert MarkerAt(spans, b + 1) == [] by {
        assert !Touched(spans, b + 1);
      }
      RenderCopies(text, spans, b + 1, stop);
      Glue([text[b]], text[b + 1..stop], MarkerAt(spans, stop) + RenderAfterMarker(text, spans, stop));
    } else {
      assert text[b + 1..stop] == [] && [text[b]] + [] == [text[b]];
    }
  }

  lemma Glue(a: string, b: string, c: string)
    ensures a + ([] + (b + c)) == (a + b) + c
  {
  }

  /** Across a gap the rendering copies the text up to the next marker. */
  lemma RenderGap(text: string, spans: seq<Span>, k: nat, b: nat)
    requires Separated(spans) && InRange(text, spans) && k < |spans|
    requires k > 0 ==> spans[k - 1].end <= b
    requires b < spans[k].start
    ensures spans[k].start <= |text|
    ensures RenderAfterMarker(text, spans, b) ==
            text[b..spans[k].start] + (MARKER + RenderAfterMarker(text, spans, spans[k].start))
  {
    assert spans[k] in spans;
    var stop := spans[k].start;
    forall i: nat | b <= i < stop
      ensures !Covered(spans, i) && (b < i ==> !Touched(spans, i))
    {
      GapIsUntouched(spans, k, i);
    }
    RenderCopies(text, spans, b, stop);
    assert Touched(spans, stop) && !Covered(spans, stop - 1);
  }

  lemma RenderLastGap(text: string, spans: seq<Span>, b: nat)
    requires Separated(spans) && InRange(text, spans) && b <= |text|
    requires spans != [] ==> Last(spans).end <= b
    ensures RenderAfterMarker(text, spans, b) == text[b..]
  {
    forall i: nat | b <= i <= |text|
      ensures !Covered(spans, i) && (b < i ==> !Touched(spans, i))
    {
      GapIsUntouched(spans, |spans|, i);
    }
    if b < |text| {
      RenderCopies(text, spans, b, |text|);
      assert !Touched(spans, |text|);
      assert text[b..] == text[b..|text|] + ([] + []);
    }
  }

  /** Inside a span the rendering emits nothing. */
  lemma {:induction false} RenderSpan(text: string, spans: seq<Span>, k: nat, b: nat)
    requires Separated(spans) && InRange(text, spans) && k < |spans|
    requires spans[k].start <= b <= spans[k].end
    ensures spans[k].end <= |text|
    ensures RenderAfterMarker(text, spans, b) == RenderAfterMarker(text, spans, spans[k].end)
    decreases spans[k].end - b
  {
    assert spans[k] in spans;
    if b < spans[k].end {
      assert Covered(spans, b);
      RenderSpan(text, spans, k, b + 1);
    }
  }

  lemma LeftToRightStep(text: string, from: nat, spans: seq<Span>, k: nat)
    requires Separated(spans) && InRange(text, spans) && Markers(spans) && k < |spans| && from <= spans[k].start
    ensures spans[k].start <= spans[k].end <= |text|
    ensures Separated(spans[k..]) && InRange(text, spans[k..]) && Separated(spans[k + 1..]) &&
            InRange(text, spans[k + 1..])
    ensures k + 1 < |spans| ==> spans[k].end < spans[k + 1].start
    ensures LeftToRight(text, from, spans[k..]) ==
              text[from..spans[k].start] + (MARKER + LeftToRight(text, spans[k].end, spans[k + 1..]))
  {
    SliceOfSpans(text, spans, k, |spans|);
    SliceOfSpans(text, spans, k + 1, |spans|);
    assert spans[k..] == spans[k..|spans|] && spans[k + 1..] == spans[k + 1..|spans|];
    assert spans[k..][1..] == spans[k + 1..];
    assert spans[k] in spans;
    assert k + 1 < |spans| ==> spans[k + 1..][0] == spans[k + 1];
  }

  lemma {:induction false} RenderFromSpan(text: string, spans: seq<Span>, k: nat)
    requires Separated(spans) && InRange(text, spans) && Markers(spans) && k < |spans|
    ensures spans[k].start <= spans[k].end <= |text|
    ensures Separated(spans[k + 1..]) && InRange(text, spans[k + 1..])
    ensures k + 1 < |spans| ==> spans[k].end <= spans[k + 1..][0].start
    ensures RenderAfterMarker(text, spans, spans[k].start) == LeftToRight(text, spans[k].end, spans[k + 1..])
    decreases |spans| - k
  {
    LeftToRightStep(text, spans[k].start, spans, k);
    assert k + 1 < |spans| ==> spans[k + 1..][0] == spans[k + 1];
    RenderSpan(text, spans, k, spans[k].start);
    if k + 1 == |spans| {
      RenderLastGap(text, spans, spans[k].end);
    } else {
      RenderGap(text, spans, k + 1, spans[k].end);
      RenderFromSpan(text, spans, k + 1);
      LeftToRightStep(text, spans[k].end, spans, k + 1);
    }
  }

  /** Splicing separated spans gives exactly the reference rendering. */
  lemma SpliceIsRendering(text: string, spans: seq<Span>)
    requires Separated(spans) && InRange(text, spans) && Markers(spans)
    ensures SpliceRightToLeft(text, spans) == Rendered(text, spans)
  {
    RightToLeftIsLeftToRight(text, spans);
    if spans == [] {
      RenderLastGap(text, spans, 0);
      assert MarkerAt(spans, 0) == [] && [] + text[0..] == text[0..];
    } else {
      RenderFromSpan(text, spans, 0);
      FirstSpanRendering(text, spans);
    }
  }

  lemma FirstSpanRendering(text: string, spans: seq<Span>)
    requires Separated(spans) && InRange(text, spans) && spans != []
    ensures spans[0].start <= |text|
    ensures Rendered(text, spans) == text[0..spans[0].start] + (MARKER + RenderAfterMarker(text, spans, spans[0].start))
  {
    assert spans[0] in spans;
    if spans[0].start == 0 {
      assert Touched(spans, 0);
      assert [] + (MARKER + RenderAfterMarker(text, spans, 0)) == MARKER + RenderAfterMarker(text, spans, 0);
    } else {
      GapIsUntouched(spans, 0, 0);
      RenderGap(text, spans, 0, 0);
      assert [] + RenderAfterMarker(text, spans, 0) == RenderAfterMarker(text, spans, 0);
    }
  }

  /******* The redactor *******/

  method MergeSpans(spans: seq<Span>) returns (merged: seq<Span>)
    requires spans != []
    ensures merged == Merged(spans)
  {
    merged := [spans[0]];
    assert Init(spans[..1]) == [] && Merged(spans[..1]) == [spans[0]];
    for i := 1 to |spans|
      invariant merged != [] && merged == Merged(spans[..i])
    {
      assert Init(spans[..i + 1]) == spans[..i] && Last(spans[..i + 1]) == spans[i];
      var s, prev := spans[i], Last(merged);
      if s.start <= prev.end {
        merged := Init(merged) + [prev.(end := Max(prev.end, s.end))];
      } else {
        merged := merged + [s];
      }
    }
    assert spans[..|spans|] == spans;
  }

  /** Assigning to a slice of a list: bounds beyond its end count as its end, an end before the start as the start. */
  function AssignSlice(text: string, s: Span): string {
    var from := if s.start <= |text| then s.start else |text|;
    var end := if s.end <= |text| then s.end else |text|;
    text[..from] + s.replacement + text[Max(from, end)..]
  }

  function AssignedFromLast(text: string, spans: seq<Span>): string
    decreases |spans|
  {
    if spans == [] then text else AssignedFromLast(AssignSlice(text, Last(spans)), Init(spans))
  }

  /** Where the replacement goes and what it takes away. */
  lemma AssignSliceIs(text: string, s: Span)
    ensures s.start >= |text| ==> AssignSlice(text, s) == text + s.replacement
    ensures s.start <= |text| <= s.end ==> AssignSlice(text, s) == text[..s.start] + s.replacement
    ensures s.end <= s.start <= |text| ==> AssignSlice(text, s) == text[..s.start] + s.replacement + text[s.start..]
    ensures s.start <= s.end <= |text| ==> AssignSlice(text, s) == text[..s.start] + s.replacement + text[s.end..]
  {
    assert text[..|text|] == text && text[|text|..] == [];
    assert text + s.replacement + [] == text + s.replacement;
    if s.start <= |text| {
      assert text[..s.start] + s.replacement + [] == text[..s.start] + s.replacement;
    }
  }

  /** For spans in sequence and in range the assignments are plain splices. */
  lemma {:induction false} AssignedIsSpliced(text: string, spans: seq<Span>)
    requires InSequence(spans) && InRange(text, spans)
    ensures AssignedFromLast(text, spans) == SpliceRightToLeft(text, spans)
    decreases |spans|
  {
    if spans != [] {
      StillInRange(text, spans);
      AssignedIsSpliced(Splice(text, Last(spans)), Init(spans));
    }
  }

  method SpliceReversed(text: string, merged: seq<Span>) returns (result: string)
    ensures result == AssignedFromLast(text, merged)
  {
    result := text;
    var k := |merged|;
    assert merged[..k] == merged;
    while k > 0
      invariant k <= |merged|
      invariant AssignedFromLast(result, merged[..k]) == AssignedFromLast(text, merged)
    {
      assert Init(merged[..k]) == merged[..k - 1] && Last(merged[..k]) == merged[k - 1];
      k := k - 1;
      result := AssignSlice(result, merged[k]);
    }
  }

  /** The safety engine: sort, merge, splice. */
  method ApplyRedactions(text: string, findings: seq<Finding>) returns (result: string)
    ensures result == AssignedFromLast(text, Merged(Sort(SpansOf(findings), Earlier)))
    ensures InRange(text, SpansOf(findings)) ==> result == Rendered(text, SpansOf(findings))
  {
    var found := SpansOf(findings);
    if InRange(text, found) {
      MergedRendering(text, findings);
      AssignedIsSpliced(text, Merged(Sort(found, Earlier)));
    }
    if found == [] {
      return text;
    }
    var merged := MergeSpans(Sort(found, Earlier));
    result := SpliceReversed(text, merged);
  }

  /** The finding has both offsets, and they enclose the character at i. */
  predicate FindingCovers(f: Finding, i: nat) {
    match f
    case Finding(Some(start), Some(end), _) => start <= i < end
    case _ => false
  }

  predicate FindingTouches(f: Finding, b: nat) {
    match f
    case Finding(Some(start), Some(end), _) => start <= b <= end
    case _ => false
  }

  /** What is covered is what the findings with both offsets cover. */
  lemma {:induction false} FindingsCover(findings: seq<Finding>, i: nat)
    ensures Covered(SpansOf(findings), i) <==> exists f :: f in findings && FindingCovers(f, i)
    ensures Touched(SpansOf(findings), i) <==> exists f :: f in findings && FindingTouches(f, i)
  {
    if findings != [] {
      var f, rest := findings[0], findings[1..];
      FindingsCover(rest, i);
      assert forall g :: g in findings <==> g == f || g in rest;
      OneSpanCovers(f, i);
      CoveredConcat(OwnSpan(f), SpansOf(rest), i);
      assert SpansOf(findings) == OwnSpan(f) + SpansOf(rest);
    }
  }

  lemma OneSpanCovers(f: Finding, i: nat)
    ensures Covered(OwnSpan(f), i) <==> FindingCovers(f, i)
    ensures Touched(OwnSpan(f), i) <==> FindingTouches(f, i)
  {
    assert OwnSpan(f) != [] ==> OwnSpan(f)[0].start == f.start.value && OwnSpan(f)[0].end == f.end.value;
  }

  lemma CoveredConcat(a: seq<Span>, b: seq<Span>, i: nat)
    ensures Covered(a + b, i) <==> Covered(a, i) || Covered(b, i)
    ensures Touched(a + b, i) <==> Touched(a, i) || Touched(b, i)
  {
    var whole := a + b;
    assert forall k :: 0 <= k < |a| ==> whole[k] == a[k];
    assert forall k :: 0 <= k < |b| ==> whole[|a| + k] == b[k];
    assert forall k :: |a| <= k < |whole| ==> whole[k] == b[k - |a|];
  }

  /** One finding: its characters give way to the marker, and nothing else changes. */
  lemma OneFinding(text: string, f: Finding)
    requires f.start.Some? && f.end.Some? && f.start.value <= f.end.value <= |text|
    ensures Rendered(text, SpansOf([f])) == text[..f.start.value] + "[REDACTED]" + text[f.end.value..]
  {
    var span := Span(f.start.value, f.end.value, MARKER);
    assert [f][1..] == [] && [span] + [] == [span];
    assert SpansOf([f]) == [span];
    SpliceIsRendering(text, [span]);
    assert Init([span]) == [] && Last([span]) == span;
    assert SpliceRightToLeft(text, [span]) == Splice(text, span);
  }

  /** Sorting, merging and splicing render the reference. */
  lemma MergedRendering(text: string, findings: seq<Finding>)
    requires InRange(text, SpansOf(findings))
    ensures
      var merged := Merged(Sort(SpansOf(findings), Earlier));
      Separated(merged) && InRange(text, merged) && SpliceRightToLeft(text, merged) == Rendered(text, SpansOf(findings))
  {
    var found := SpansOf(findings);
    var spans := Sort(found, Earlier);
    assert SortedSpans(spans) && InRange(text, spans) && Markers(spans) && forall s :: s in spans <==> s in found by {
      SpansOfUseMarker(findings);
      SortSorts(found, Earlier);
      SortElements(found, Earlier);
    }
    SortedRendering(text, spans);
    RenderedByMembership(text, spans, found);
  }

  lemma SortedRendering(text: string, spans: seq<Span>)
    requires SortedSpans(spans) && InRange(text, spans) && Markers(spans)
    ensures
      var merged := Merged(spans);
      Separated(merged) && InRange(text, merged) && SpliceRightToLeft(text, merged) == Rendered(text, spans)
  {
    MergedIsSeparated(spans);
    MergedStaysInRange(text, spans);
    SpliceIsRendering(text, Merged(spans));
    forall i: nat
      ensures Covered(Merged(spans), i) == Covered(spans, i) && Touched(Merged(spans), i) == Touched(spans, i)
    {
      MergedIsUnion(spans, i);
    }
    SameCoverage(text, Merged(spans), spans, 0);
  }

  lemma {:induction false} SpansOfUseMarker(findings: seq<Finding>)
    ensures Markers(SpansOf(findings))
  {
    if findings != [] {
      SpansOfUseMarker(findings[1..]);
    }
  }

  /** Neither the order nor the repetition of findings changes the redacted text. */
  lemma RedactionIgnoresOrder(text: string, a: seq<Finding>, b: seq<Finding>)
    requires forall f :: f in a <==> f in b
    ensures Rendered(text, SpansOf(a)) == Rendered(text, SpansOf(b))
  {
    SpanMembership(a);
    SpanMembership(b);
    RenderedByMembership(text, SpansOf(a), SpansOf(b));
  }

  lemma {:induction false} SpanMembership(findings: seq<Finding>)
    ensures forall s :: s in SpansOf(findings) <==>
              s.replacement == MARKER && exists f :: f in findings && f.start == Some(s.start) && f.end == Some(s.end)
  {
    if findings != [] {
      SpanMembership(findings[1..]);
      assert findings == [findings[0]] + findings[1..];
    }
  }
}
