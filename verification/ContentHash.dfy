/** What a document's content hash is taken over. */
module ContentHash {
  import opened JsonText
  import opened Prelude
  import opened Whitespace

  /******* Whitespace normalisation *******/

  /** CRLF and lone CR become LF. */
  function Newlines(text: string): string {
    if text == [] then []
    else if text[0] != '\r' then [text[0]] + Newlines(text[1..])
    else if |text| > 1 && text[1] == '\n' then "\n" + Newlines(text[2..])
    else "\n" + Newlines(text[1..])
  }

  /** Each run of spaces and tabs becomes one space; inRun says that the run's space has been written. */
  function CollapseFrom(text: string, inRun: bool): string {
    if text == [] then []
    else if !IsBlank(text[0]) then [text[0]] + CollapseFrom(text[1..], false)
    else (if inRun then [] else " ") + CollapseFrom(text[1..], true)
  }

  function Collapse(text: string): string {
    CollapseFrom(text, false)
  }

  function FirstLine(text: string): (n: nat)
    ensures n <= |text|
  {
    if text == [] || EndsLine(text[0]) then 0 else 1 + FirstLine(text[1..])
  }

  /** The lines, stripped on the right and joined by LF; a final line end is lost. */
  function StripLines(text: string): string
    decreases |text|
  {
    if text == [] then []
    else
      var n := FirstLine(text);
      RStrip(text[..n]) + if n + 1 >= |text| then [] else "\n" + StripLines(text[n + 1..])
  }

  function Normalise(text: string): string {
    StripLines(Collapse(Newlines(text)))
  }

  function WithMetadata(normalised: string, metadata: Option<Members>): string {
    normalised + if metadata.Some? then "|" + DumpedMapping(metadata.value) else []
  }

  /** The bytes hashed for a document. */
  function HashInput(text: string, metadata: Option<Members>): string {
    WithMetadata(Normalise(text), metadata)
  }

  /******* What normalisation forgives *******/

  /** The text with Windows line ends. */
  function Crlf(text: string): string {
    if text == [] then [] else (if text[0] == '\n' then "\r\n" else [text[0]]) + Crlf(text[1..])
  }

  lemma {:induction false} NewlinesUndoCrlf(text: string)
    requires '\r' !in text
    ensures Newlines(Crlf(text)) == Newlines(text) == text
  {
    if text != [] {
      NewlinesUndoCrlf(text[1..]);
      if text[0] == '\n' {
        assert Crlf(text)[2..] == Crlf(text[1..]);
      } else {
        assert Crlf(text)[1..] == Crlf(text[1..]);
      }
    }
  }

  /** Windows and Unix line ends give the same hash input. */
  lemma LineEndStyleDoesNotMatter(text: string, metadata: Option<Members>)
    requires '\r' !in text
    ensures HashInput(Crlf(text), metadata) == HashInput(text, metadata)
  {
    NewlinesUndoCrlf(text);
  }

  lemma {:induction false} NewlinesConcat(a: string, b: string)
    requires b == [] || b[0] != '\n'
    ensures Newlines(a + b) == Newlines(a) + Newlines(b)
    decreases |a|
  {
    if a == [] {
      assert a + b == b;
    } else {
      var skipped := if a[0] == '\r' && |a| > 1 && a[1] == '\n' then 2 else 1;
      assert (a + b)[skipped..] == a[skipped..] + b;
      NewlinesConcat(a[skipped..], b);
      var first := if a[0] == '\r' then "\n" else [a[0]];
      Regrouped(first, Newlines(a[skipped..]), Newlines(b));
    }
  }

  ghost predicate AllBlank(s: string) {
    forall i :: 0 <= i < |s| ==> IsBlank(s[i])
  }

  lemma {:induction false} NewlinesKeepBlanks(blanks: string, b: string)
    requires AllBlank(blanks)
    ensures Newlines(blanks + b) == blanks + Newlines(b)
  {
    if blanks == [] {
      assert blanks + b == b;
    } else {
      assert (blanks + b)[1..] == blanks[1..] + b;
      NewlinesKeepBlanks(blanks[1..], b);
    }
  }

  /** Whether the run state after a text is that of a run. */
  function RunAfter(text: string, inRun: bool): bool {
    if text == [] then inRun else IsBlank(Last(text))
  }

  lemma {:induction false} CollapseConcat(a: string, b: string, inRun: bool)
    ensures CollapseFrom(a + b, inRun) == CollapseFrom(a, inRun) + CollapseFrom(b, RunAfter(a, inRun))
  {
    if a == [] {
      assert a + b == b;
    } else {
      assert (a + b)[1..] == a[1..] + b;
      CollapseConcat(a[1..], b, IsBlank(a[0]));
      var first := if !IsBlank(a[0]) then [a[0]] else if inRun then [] else " ";
      Regrouped(first, CollapseFrom(a[1..], IsBlank(a[0])), CollapseFrom(b, RunAfter(a, inRun)));
    }
  }

  lemma {:induction false} CollapseBlanks(blanks: string, inRun: bool)
    requires AllBlank(blanks) && blanks != []
    ensures CollapseFrom(blanks, inRun) == if inRun then [] else " "
  {
    if |blanks| > 1 {
      CollapseBlanks(blanks[1..], true);
    }
  }

  lemma CollapsedRun(a: string, blanks: string, b: string)
    requires AllBlank(blanks) && blanks != []
    ensures Collapse(Newlines(a + (blanks + b))) ==
            Collapse(Newlines(a)) +
              ((if RunAfter(Newlines(a), false) then [] else " ") + CollapseFrom(Newlines(b), true))
  {
    var start := Newlines(a);
    NewlinesConcat(a, blanks + b);
    NewlinesKeepBlanks(blanks, b);
    CollapseConcat(start, blanks + Newlines(b), false);
    CollapseConcat(blanks, Newlines(b), RunAfter(start, false));
    CollapseBlanks(blanks, RunAfter(start, false));
  }

  /** How long a run of spaces and tabs is, and which of the two it is made of, does not change the hash input. */
  lemma BlankRunsDoNotMatter(a: string, blanks: string, others: string, b: string, metadata: Option<Members>)
    requires AllBlank(blanks) && AllBlank(others) && blanks != [] && others != []
    ensures HashInput(a + (blanks + b), metadata) == HashInput(a + (others + b), metadata)
  {
    CollapsedRun(a, blanks, b);
    CollapsedRun(a, others, b);
  }

  /******* What normalisation is *******/

  /** LF is the only line end and none ends the text, there is no tab, no two spaces come together, and no white space
      comes before a line end or at the end. */
  ghost predicate NormalForm(text: string) {
    forall i :: 0 <= i < |text| ==> NormalAt(text, i)
  }

  predicate NormalAt(text: string, i: nat)
    requires i < |text|
  {
    && (EndsLine(text[i]) ==> text[i] == '\n')
    && text[i] != '\t'
    && (text[i] == ' ' && i + 1 < |text| ==> text[i + 1] != ' ')
    && (IsSpace(text[i]) ==> i + 1 < |text| && (text[i] == '\n' || text[i + 1] != '\n'))
  }

  lemma NormalFormFrom(text: string, n: nat)
    requires NormalForm(text) && n <= |text|
    ensures NormalForm(text[n..])
  {
    var rest := text[n..];
    forall i | 0 <= i < |rest|
      ensures NormalAt(rest, i)
    {
      assert NormalAt(text, n + i);
    }
  }

  lemma {:induction false} NormalCollapse(text: string, inRun: bool)
    requires NormalForm(text) && (inRun && text != [] ==> !IsBlank(text[0]))
    ensures CollapseFrom(text, inRun) == text
  {
    if text != [] {
      assert NormalAt(text, 0);
      NormalFormFrom(text, 1);
      assert |text| > 1 ==> NormalAt(text, 1) && text[1..][0] == text[1];
      NormalCollapse(text[1..], IsBlank(text[0]));
      assert text == [text[0]] + text[1..];
    }
  }

  lemma FirstLineEnds(text: string)
    ensures FirstLine(text) < |text| ==> EndsLine(text[FirstLine(text)])
    ensures forall i :: 0 <= i < FirstLine(text) ==> !EndsLine(text[i])
  {
    if text != [] && !EndsLine(text[0]) {
      FirstLineEnds(text[1..]);
    }
  }

  /** The first line ends in no white space, and another follows if there is a line end. */
  lemma NormalLine(text: string)
    requires NormalForm(text)
    ensures
      var n := FirstLine(text);
      RStrip(text[..n]) == text[..n] && (n < |text| ==> text[n] == '\n' && n + 1 < |text|)
  {
    var n := FirstLine(text);
    FirstLineEnds(text);
    if n > 0 {
      assert NormalAt(text, n - 1) && Last(text[..n]) == text[n - 1];
    }
    assert n < |text| ==> NormalAt(text, n);
  }

  lemma SplitAtLf(text: string, n: nat)
    requires n < |text| && text[n] == '\n'
    ensures text == text[..n] + ("\n" + text[n + 1..])
  {
  }

  lemma {:induction false} NormalLines(text: string)
    requires NormalForm(text)
    ensures StripLines(text) == text
    decreases |text|
  {
    if text != [] {
      var n := FirstLine(text);
      NormalLine(text);
      if n < |text| {
        NormalFormFrom(text, n + 1);
        NormalLines(text[n + 1..]);
        SplitAtLf(text, n);
      } else {
        assert text[..n] == text && text + [] == text;
      }
    }
  }

  /** A text in normal form is its own normal form: nothing of it is lost. */
  lemma NormalFormIsFixed(text: string)
    requires NormalForm(text)
    ensures Normalise(text) == text
  {
    assert '\r' !in text by {
      forall i | 0 <= i < |text|
        ensures text[i] != '\r'
      {
        assert NormalAt(text, i);
      }
    }
    NewlinesUndoCrlf(text);
    NormalCollapse(text, false);
    NormalLines(text);
  }

  ghost predicate OneLine(text: string) {
    forall i :: 0 <= i < |text| ==> !EndsLine(text[i])
  }

  /** CRLF, or a single character that ends a line. */
  predicate IsLineEnd(end: string) {
    end == "\r\n" || (|end| == 1 && EndsLine(end[0]))
  }

  lemma {:induction false} CollapseOneLine(text: string, inRun: bool)
    requires OneLine(text)
    ensures OneLine(CollapseFrom(text, inRun))
  {
    if text != [] {
      CollapseOneLine(text[1..], IsBlank(text[0]));
    }
  }

  lemma {:induction false} FirstLineOf(line: string, rest: string)
    requires OneLine(line) && (rest == [] || EndsLine(rest[0]))
    ensures FirstLine(line + rest) == |line|
  {
    if line == [] {
      assert line + rest == rest;
    } else {
      assert (line + rest)[1..] == line[1..] + rest;
      FirstLineOf(line[1..], rest);
    }
  }

  /** A line normalises to its blank runs collapsed and stripped on the right. */
  lemma OneLineNormalised(line: string)
    requires OneLine(line)
    ensures Newlines(line) == line && Normalise(line) == RStrip(Collapse(line))
  {
    assert '\r' !in line;
    NewlinesUndoCrlf(line);
    CollapseOneLine(line, false);
    var collapsed := Collapse(line);
    FirstLineOf(collapsed, []);
    assert collapsed + [] == collapsed && collapsed[..|collapsed|] == collapsed;
    assert RStrip(collapsed) + [] == RStrip(collapsed);
  }

  /** The line end that is left after the first step. */
  function EndAfter(end: string): char
    requires IsLineEnd(end)
  {
    if end[0] == '\r' then '\n' else end[0]
  }

  lemma NewlinesAtEnd(line: string, end: string, rest: string)
    requires OneLine(line) && IsLineEnd(end) && (end == "\r" && rest != [] ==> rest[0] != '\n')
    ensures Newlines(line + (end + rest)) == line + ([EndAfter(end)] + Newlines(rest))
  {
    OneLineNormalised(line);
    if end[0] == '\n' {
      NewlinesOneByOne(line, end + rest);
    } else {
      NewlinesConcat(line, end + rest);
    }
    var whole := end + rest;
    assert whole[|end|..] == rest && whole[0] == end[0];
    assert end == "\r\n" ==> whole[1] == '\n';
    assert end == "\r" && rest != [] ==> whole[1] == rest[0];
  }

  lemma {:induction false} NewlinesOneByOne(line: string, rest: string)
    requires '\r' !in line
    ensures Newlines(line + rest) == line + Newlines(rest)
  {
    if line == [] {
      assert line + rest == rest;
    } else {
      assert (line + rest)[1..] == line[1..] + rest;
      NewlinesOneByOne(line[1..], rest);
      Regrouped([line[0]], line[1..], Newlines(rest));
      assert line == [line[0]] + line[1..];
    }
  }

  lemma CollapseAtEnd(line: string, end: char, rest: string)
    requires EndsLine(end)
    ensures Collapse(line + ([end] + rest)) == Collapse(line) + ([end] + Collapse(rest))
  {
    CollapseConcat(line, [end] + rest, false);
    assert ([end] + rest)[1..] == rest;
  }

  lemma StripAtEnd(line: string, end: char, rest: string)
    requires OneLine(line) && EndsLine(end)
    ensures StripLines(line + ([end] + rest)) == RStrip(line) + if rest == [] then [] else "\n" + StripLines(rest)
  {
    var text := line + ([end] + rest);
    FirstLineOf(line, [end] + rest);
    assert text[..|line|] == line && text[|line| + 1..] == rest;
  }

  lemma NothingVanishes(text: string)
    ensures Collapse(Newlines(text)) == [] <==> text == []
  {
  }

  /** A text of several lines normalises line by line, whatever its line ends; only a final line end is lost. */
  lemma NormalisedByLine(line: string, end: string, rest: string)
    requires OneLine(line) && IsLineEnd(end) && (end == "\r" && rest != [] ==> rest[0] != '\n')
    ensures Normalise(line + (end + rest)) == Normalise(line) + if rest == [] then [] else "\n" + Normalise(rest)
  {
    NewlinesAtEnd(line, end, rest);
    CollapseAtEnd(line, EndAfter(end), Newlines(rest));
    CollapseOneLine(line, false);
    StripAtEnd(Collapse(line), EndAfter(end), Collapse(Newlines(rest)));
    OneLineNormalised(line);
    NothingVanishes(rest);
  }

  /** White space at the end of a line is lost. */
  lemma TrailingSpaceIsLost(line: string, spaces: string)
    requires OneLine(line) && OneLine(spaces) && forall i :: 0 <= i < |spaces| ==> IsSpace(spaces[i])
    ensures Normalise(line + spaces) == Normalise(line)
  {
    OneLineNormalised(line);
    OneLineNormalised(line + spaces);
    CollapseConcat(line, spaces, false);
    CollapsedSpaces(spaces, RunAfter(line, false));
    StripSpaces(Collapse(line), CollapseFrom(spaces, RunAfter(line, false)));
  }

  lemma {:induction false} CollapsedSpaces(spaces: string, inRun: bool)
    requires forall i :: 0 <= i < |spaces| ==> IsSpace(spaces[i])
    ensures forall i :: 0 <= i < |CollapseFrom(spaces, inRun)| ==> IsSpace(CollapseFrom(spaces, inRun)[i])
  {
    if spaces != [] {
      CollapsedSpaces(spaces[1..], IsBlank(spaces[0]));
    }
  }

  lemma {:induction false} StripSpaces(text: string, spaces: string)
    requires forall i :: 0 <= i < |spaces| ==> IsSpace(spaces[i])
    ensures RStrip(text + spaces) == RStrip(text)
    decreases |spaces|
  {
    if spaces == [] {
      assert text + spaces == text;
    } else {
      assert Init(text + spaces) == text + Init(spaces);
      StripSpaces(text, Init(spaces));
    }
  }

  /******* What the hash input tells apart *******/

  /** The first text, without metadata, is the second, the separator, and the second's metadata as it is written. */
  predicate Swallows(x: string, forX: Option<Members>, y: string, forY: Option<Members>) {
    forX.None? && forY.Some? && x == y + ("|" + DumpedMapping(forY.value))
  }

  /** Two normalised texts with their metadata that are taken for the same content. */
  predicate Alike(x: string, forX: Option<Members>, y: string, forY: Option<Members>) {
    (x == y && forX == forY) || Swallows(x, forX, y, forY) || Swallows(y, forY, x, forX)
  }

  /** Two documents have the same hash input if and only if normalised text and metadata are equal, or one has no
      metadata and its text goes on, after the other's, with a '|' and the other's metadata. */
  lemma HashInputsEqualIff(a: string, forA: Option<Members>, b: string, forB: Option<Members>)
    ensures HashInput(a, forA) == HashInput(b, forB) <==> Alike(Normalise(a), forA, Normalise(b), forB)
  {
    var x, y := Normalise(a), Normalise(b);
    assert x + [] == x && y + [] == y;
    if forA.Some? && forB.Some? && HashInput(a, forA) == HashInput(b, forB) {
      JoinedUnique(x, forA.value, y, forB.value);
    }
  }

  lemma JoinedUnique(x: string, m: Members, y: string, n: Members)
    requires x + ("|" + DumpedMapping(m)) == y + ("|" + DumpedMapping(n))
    ensures x == y && m == n
  {
    NotLonger(x, m, y, n);
    NotLonger(y, n, x, m);
    SameCut(x, "|" + DumpedMapping(m), y, "|" + DumpedMapping(n));
    SameCut("|", DumpedMapping(m), "|", DumpedMapping(n));
    MappingUnique(m, n);
  }

  lemma NotLonger(x: string, m: Members, y: string, n: Members)
    requires x + ("|" + DumpedMapping(m)) == y + ("|" + DumpedMapping(n))
    ensures |y| <= |x|
  {
    if |x| < |y| {
      AfterShorter(x, DumpedMapping(m), y, DumpedMapping(n));
      NoMappingAfterBar(m, n, y[|x| + 1..]);
    }
  }

  lemma AfterShorter(x: string, u: string, y: string, v: string)
    requires |x| < |y| && x + ("|" + u) == y + ("|" + v)
    ensures u == y[|x| + 1..] + ("|" + v)
  {
    assert (x + ("|" + u))[|x| + 1..] == u;
    assert (y + ("|" + v))[|x| + 1..] == y[|x| + 1..] + ("|" + v);
  }

  /** For the same metadata the hash input tells normalised texts apart. */
  lemma HashInputSameMetadata(a: string, b: string, metadata: Option<Members>)
    ensures HashInput(a, metadata) == HashInput(b, metadata) <==> Normalise(a) == Normalise(b)
  {
    HashInputsEqualIff(a, metadata, b, metadata);
  }

  /** y is x followed by the separator and the text of some mapping. */
  ghost predicate EndsInMetadata(x: string, y: string) {
    exists m: Members :: y == x + ("|" + DumpedMapping(m))
  }

  /** Two texts that differ after normalisation can be given metadata under which they are taken for the same content if
      and only if one of the normalised texts is the other followed by a '|' and the text of a mapping. */
  lemma CanCollideIff(a: string, b: string)
    requires Normalise(a) != Normalise(b)
    ensures (exists forA, forB :: HashInput(a, forA) == HashInput(b, forB)) <==>
            EndsInMetadata(Normalise(a), Normalise(b)) || EndsInMetadata(Normalise(b), Normalise(a))
  {
    forall forA, forB
      ensures HashInput(a, forA) == HashInput(b, forB) <==> Alike(Normalise(a), forA, Normalise(b), forB)
    {
      HashInputsEqualIff(a, forA, b, forB);
    }
    if EndsInMetadata(Normalise(a), Normalise(b)) {
      var m :| Normalise(b) == Normalise(a) + ("|" + DumpedMapping(m));
      assert Alike(Normalise(a), Some(m), Normalise(b), None);
      assert HashInput(a, Some(m)) == HashInput(b, None);
    }
    if EndsInMetadata(Normalise(b), Normalise(a)) {
      var m :| Normalise(a) == Normalise(b) + ("|" + DumpedMapping(m));
      assert Alike(Normalise(a), None, Normalise(b), Some(m));
      assert HashInput(a, None) == HashInput(b, Some(m));
    }
  }

  lemma NormalFormJoined(a: string, b: string)
    requires NormalForm(a) && NormalForm(b)
    ensures NormalForm(a + ("|" + b))
  {
    var whole := a + ("|" + b);
    forall i | 0 <= i < |whole|
      ensures NormalAt(whole, i)
    {
      if i < |a| {
        assert NormalAt(a, i);
      } else if i > |a| {
        assert NormalAt(b, i - |a| - 1);
      }
    }
  }

  /** Such documents exist: a text and a written mapping in normal form give the longer text the hash input of the
      shorter text with this metadata. */
  lemma MetadataCanCollide(text: string, metadata: Members)
    requires NormalForm(text) && NormalForm(DumpedMapping(metadata))
    ensures HashInput(text + ("|" + DumpedMapping(metadata)), None) == HashInput(text, Some(metadata))
    ensures Normalise(text + ("|" + DumpedMapping(metadata))) != Normalise(text)
  {
    var longer := text + ("|" + DumpedMapping(metadata));
    NormalFormJoined(text, DumpedMapping(metadata));
    NormalFormIsFixed(longer);
    NormalFormIsFixed(text);
    HashInputsEqualIff(longer, None, text, Some(metadata));
  }
}
