/** Bracket repair of broken JSON: inserting missing closers, then completing truncated text. */
module JsonRepair {
  import opened Prelude
  import opened Whitespace

  /******* The two scanners *******/

  /** The closers still owed (innermost last), and where the scanner is with strings and escapes. */
  datatype Scan = Scan(stack: string, inString: bool, escape: bool)

  const START := Scan([], false, false)

  predicate IsOpener(c: char) { c == '{' || c == '[' }

  predicate IsCloser(c: char) { c == '}' || c == ']' }

  function CloserFor(c: char): char {
    if c == '{' then '}' else ']'
  }

  /** The stack once everything down to the innermost ch, and ch itself, is popped. */
  function Unwound(stack: string, ch: char): string
    requires ch in stack
  {
    if Last(stack) == ch then Init(stack) else Unwound(Init(stack), ch)
  }

  /** The closers popped on the way to the innermost ch: these are inserted. */
  function Missing(stack: string, ch: char): string
    requires ch in stack
  {
    if Last(stack) == ch then [] else [Last(stack)] + Missing(Init(stack), ch)
  }

  /** A character that is not a structural bracket at this point of the scan. */
  predicate PassesThrough(s: Scan, ch: char) {
    s.escape || s.inString || !(IsOpener(ch) || IsCloser(ch))
  }

  function LexNext(s: Scan, ch: char): Scan {
    if s.escape then s.(escape := false)
    else if ch == '\\' then s.(escape := true)
    else if ch == '"' then s.(inString := !s.inString)
    else s
  }

  function FixNext(s: Scan, ch: char): Scan {
    if PassesThrough(s, ch) then LexNext(s, ch)
    else if IsOpener(ch) then s.(stack := s.stack + [CloserFor(ch)])
    else if ch in s.stack then s.(stack := Unwound(s.stack, ch))
    else s
  }

  function Emitted(s: Scan, ch: char): string {
    if !PassesThrough(s, ch) && IsCloser(ch) && ch in s.stack then Missing(s.stack, ch) + [ch] else [ch]
  }

  function FixEnd(s: Scan, text: string): Scan
    decreases |text|
  {
    if text == [] then s else FixEnd(FixNext(s, text[0]), text[1..])
  }

  function FixFrom(s: Scan, text: string): string
    decreases |text|
  {
    if text == [] then [] else Emitted(s, text[0]) + FixFrom(FixNext(s, text[0]), text[1..])
  }

  function Fixed(text: string): string {
    FixFrom(START, text)
  }

  function CloseStep(s: Scan, ch: char): Scan {
    if PassesThrough(s, ch) then LexNext(s, ch)
    else if IsOpener(ch) then s.(stack := s.stack + [CloserFor(ch)])
    else if s.stack != [] && Last(s.stack) == ch then s.(stack := Init(s.stack))
    else s
  }

  function CloseScan(s: Scan, text: string): Scan
    decreases |text|
  {
    if text == [] then s else CloseScan(CloseStep(s, text[0]), text[1..])
  }

  /** Removes one comma followed only by white space, with that white space. */
  function StripTrailingComma(text: string): string {
    var t := RStrip(text);
    if t != [] && Last(t) == ',' then Init(t) else text
  }

  function Closed(text: string): string {
    StripTrailingComma(text) + Reversed(CloseScan(START, text).stack)
  }

  /** The inner loop: insert the missing closers above the match, then pop the match. */
  method PopThrough(stack: string, ch: char) returns (rest: string, inserted: string)
    requires ch in stack
    ensures rest == Unwound(stack, ch) && inserted == Missing(stack, ch)
  {
    rest, inserted := stack, [];
    while rest != [] && Last(rest) != ch
      invariant ch in rest
      invariant Unwound(stack, ch) == Unwound(rest, ch)
      invariant Missing(stack, ch) == inserted + Missing(rest, ch)
      decreases |rest|
    {
      assert inserted + Missing(rest, ch) == (inserted + [Last(rest)]) + Missing(Init(rest), ch);
      inserted := inserted + [Last(rest)];
      rest := Init(rest);
    }
    if rest != [] {
      rest := Init(rest);
    }
  }

  method FixMismatchedBrackets(text: string) returns (result: string)
    ensures result == Fixed(text)
  {
    result := [];
    var stack: string, inString, escape := [], false, false;
    for i := 0 to |text|
      invariant Fixed(text) == result + FixFrom(Scan(stack, inString, escape), text[i..])
    {
      ghost var s := Scan(stack, inString, escape);
      FixUnfold(result, s, text, i);
      var ch := text[i];
      if escape {
        result := result + [ch];
        escape := false;
        continue;
      }
      if ch == '\\' {
        result := result + [ch];
        escape := true;
        continue;
      }
      if ch == '"' {
        inString := !inString;
        result := result + [ch];
        continue;
      }
      if inString {
        result := result + [ch];
        continue;
      }
      if ch == '{' {
        stack := stack + ['}'];
        result := result + [ch];
      } else if ch == '[' {
        stack := stack + [']'];
        result := result + [ch];
      } else if ch == '}' || ch == ']' {
        if stack != [] && Last(stack) == ch {
          assert Missing(s.stack, ch) == [] && [] + [ch] == [ch];
          stack := Init(stack);
          result := result + [ch];
        } else if ch in stack {
          var inserted;
          stack, inserted := PopThrough(stack, ch);
          assert result + (inserted + [ch]) == result + inserted + [ch];
          result := result + inserted + [ch];
        } else {
          result := result + [ch];
        }
      } else {
        result := result + [ch];
      }
    }
    assert result + [] == result;
  }

  lemma FixUnfold(result: string, s: Scan, text: string, i: nat)
    requires i < |text|
    ensures result + FixFrom(s, text[i..]) ==
            (result + Emitted(s, text[i])) + FixFrom(FixNext(s, text[i]), text[i + 1..])
  {
    assert text[i..][0] == text[i] && text[i..][1..] == text[i + 1..];
    assert result + (Emitted(s, text[i]) + FixFrom(FixNext(s, text[i]), text[i + 1..]))
        == (result + Emitted(s, text[i])) + FixFrom(FixNext(s, text[i]), text[i + 1..]);
  }

  method CloseTruncated(text: string) returns (result: string)
    ensures result == Closed(text)
  {
    var stack: string, inString, escape := [], false, false;
    for i := 0 to |text|
      invariant CloseScan(START, text) == CloseScan(Scan(stack, inString, escape), text[i..])
    {
      assert text[i..][0] == text[i] && text[i..][1..] == text[i + 1..];
      var ch := text[i];
      if escape {
        escape := false;
        continue;
      }
      if ch == '\\' {
        escape := true;
        continue;
      }
      if ch == '"' {
        inString := !inString;
        continue;
      }
      if inString {
        continue;
      }
      if ch == '{' {
        stack := stack + ['}'];
      } else if ch == '[' {
        stack := stack + [']'];
      } else if ch == '}' || ch == ']' {
        if stack != [] && Last(stack) == ch {
          stack := Init(stack);
        }
      }
    }
    result := StripTrailingComma(text) + Reversed(stack);
  }

  /******* Fixing only inserts closers, and settles in one pass *******/

  lemma {:induction false} FixConcat(s: Scan, a: string, b: string)
    ensures FixEnd(s, a + b) == FixEnd(FixEnd(s, a), b)
    ensures FixFrom(s, a + b) == FixFrom(s, a) + FixFrom(FixEnd(s, a), b)
    decreases |a|
  {
    if a == [] {
      assert a + b == b;
    } else {
      assert (a + b)[1..] == a[1..] + b;
      FixConcat(FixNext(s, a[0]), a[1..], b);
    }
  }

  lemma FixOne(s: Scan, ch: char)
    ensures FixEnd(s, [ch]) == FixNext(s, ch) && FixFrom(s, [ch]) == Emitted(s, ch) &&
            CloseScan(s, [ch]) == CloseStep(s, ch)
  {
    assert [ch][1..] == [];
  }

  /** Only closers ever get onto the stack. */
  ghost predicate ClosersOnly(stack: string) {
    forall c :: c in stack ==> IsCloser(c)
  }

  /** The scanners agree on the output of the first, and the first leaves it alone. */
  ghost predicate ReadsBack(s: Scan, out: string, next: Scan) {
    FixFrom(s, out) == out && FixEnd(s, out) == next && CloseScan(s, out) == next
  }

  lemma ReadsBackConcat(s: Scan, a: string, mid: Scan, b: string, next: Scan)
    requires ReadsBack(s, a, mid) && ReadsBack(mid, b, next)
    ensures ReadsBack(s, a + b, next)
  {
    FixConcat(s, a, b);
    CloseScanConcat(s, a, b);
  }

  /** Reading back what was inserted pops the same closers and inserts nothing more. */
  lemma {:induction false} UnwindReadsBack(s: Scan, ch: char)
    requires ClosersOnly(s.stack) && ch in s.stack && !s.inString && !s.escape
    ensures ClosersOnly(Unwound(s.stack, ch)) && ClosersOnly(Missing(s.stack, ch))
    ensures ReadsBack(s, Missing(s.stack, ch) + [ch], s.(stack := Unwound(s.stack, ch)))
    decreases |s.stack|
  {
    var top, popped := Last(s.stack), s.(stack := Init(s.stack));
    assert IsCloser(top);
    FixOne(s, top);
    assert Missing(s.stack, top) == [] && [] + [top] == [top];
    assert ReadsBack(s, [top], popped);
    if top == ch {
      assert [] + [ch] == [ch];
    } else {
      UnwindReadsBack(popped, ch);
      var rest := Missing(popped.stack, ch) + [ch];
      ReadsBackConcat(s, [top], popped, rest, s.(stack := Unwound(s.stack, ch)));
      assert [top] + rest == Missing(s.stack, ch) + [ch];
    }
  }

  lemma StepReadsBack(s: Scan, ch: char)
    requires ClosersOnly(s.stack)
    ensures ClosersOnly(FixNext(s, ch).stack)
    ensures ReadsBack(s, Emitted(s, ch), FixNext(s, ch))
  {
    FixOne(s, ch);
    if !PassesThrough(s, ch) && IsCloser(ch) && ch in s.stack {
      UnwindReadsBack(s, ch);
    }
  }

  lemma {:induction false} CloseScanConcat(s: Scan, a: string, b: string)
    ensures CloseScan(s, a + b) == CloseScan(CloseScan(s, a), b)
    decreases |a|
  {
    if a == [] {
      assert a + b == b;
    } else {
      assert (a + b)[1..] == a[1..] + b;
      CloseScanConcat(CloseStep(s, a[0]), a[1..], b);
    }
  }

  lemma {:induction false} FixReadsBack(s: Scan, text: string)
    requires ClosersOnly(s.stack)
    ensures ClosersOnly(FixEnd(s, text).stack)
    ensures ReadsBack(s, FixFrom(s, text), FixEnd(s, text))
    decreases |text|
  {
    if text != [] {
      StepReadsBack(s, text[0]);
      var s1 := FixNext(s, text[0]);
      FixReadsBack(s1, text[1..]);
      ReadsBackConcat(s, Emitted(s, text[0]), s1, FixFrom(s1, text[1..]), FixEnd(s1, text[1..]));
    }
  }

  /** Fixing twice is fixing once. */
  lemma Idempotent(text: string)
    ensures Fixed(Fixed(text)) == Fixed(text)
  {
    FixReadsBack(START, text);
  }

  /** b is a with closers inserted. */
  ghost predicate ClosersInserted(a: string, b: string)
    decreases |b|
  {
    if b == [] then a == []
    else
      || (a != [] && a[0] == b[0] && ClosersInserted(a[1..], b[1..]))
      || (IsCloser(b[0]) && ClosersInserted(a, b[1..]))
  }

  lemma {:induction false} ClosersInsertedBefore(closers: string, a: string, b: string)
    requires ClosersOnly(closers) && ClosersInserted(a, b)
    ensures ClosersInserted(a, closers + b)
  {
    if closers == [] {
      assert closers + b == b;
    } else {
      assert closers == [closers[0]] + closers[1..];
      assert (closers + b)[1..] == closers[1..] + b;
      assert ClosersOnly(closers[1..]);
      ClosersInsertedBefore(closers[1..], a, b);
    }
  }

  lemma {:induction false} FixFromInsertsClosers(s: Scan, text: string)
    requires ClosersOnly(s.stack)
    ensures ClosersInserted(text, FixFrom(s, text))
    decreases |text|
  {
    if text != [] {
      var ch, out := text[0], Emitted(s, text[0]);
      StepReadsBack(s, ch);
      FixFromInsertsClosers(FixNext(s, ch), text[1..]);
      var later := FixFrom(FixNext(s, ch), text[1..]);
      assert ([ch] + later)[1..] == later;
      assert ClosersInserted(text, [ch] + later);
      if out != [ch] {
        UnwindReadsBack(s, ch);
        ClosersInsertedBefore(Missing(s.stack, ch), text, [ch] + later);
        assert out + later == Missing(s.stack, ch) + ([ch] + later);
      }
    }
  }

  /** Nothing of the input is lost or moved: the output is the input with closers inserted. */
  lemma OnlyInsertsClosers(text: string)
    ensures ClosersInserted(text, Fixed(text))
  {
    FixFromInsertsClosers(START, text);
  }

  /** Every structural closer met is either innermost or not owed at all. */
  ghost predicate NoBuriedCloser(s: Scan, text: string)
    decreases |text|
  {
    text != [] ==>
      && (!PassesThrough(s, text[0]) && IsCloser(text[0]) && text[0] in s.stack ==> Last(s.stack) == text[0])
      && NoBuriedCloser(FixNext(s, text[0]), text[1..])
  }

  lemma {:induction false} UnchangedFrom(s: Scan, text: string)
    ensures |FixFrom(s, text)| >= |text|
    ensures FixFrom(s, text) == text <==> NoBuriedCloser(s, text)
    ensures |FixFrom(s, text)| == |text| <==> NoBuriedCloser(s, text)
    decreases |text|
  {
    if text != [] {
      UnchangedFrom(FixNext(s, text[0]), text[1..]);
      assert text == [text[0]] + text[1..];
    }
  }

  /** Text is left alone iff no closer appears while other brackets opened after its own are still open. */
  lemma UnchangedIff(text: string)
    ensures Fixed(text) == text <==> NoBuriedCloser(START, text)
  {
    UnchangedFrom(START, text);
  }

  /** A backslash escapes the next character anywhere, outside strings too: neither scanner looks at it. */
  lemma EscapedIsPassedOver(s: Scan, ch: char, rest: string)
    requires !s.escape
    ensures FixFrom(s, "\\" + ([ch] + rest)) == "\\" + ([ch] + FixFrom(s, rest))
    ensures CloseScan(s, "\\" + ([ch] + rest)) == CloseScan(s, rest)
  {
    var text := "\\" + ([ch] + rest);
    assert text[1..] == [ch] + rest && ([ch] + rest)[1..] == rest;
  }

  /******* What well-bracketed means, independently of any scanner *******/

  datatype Forest = Leaf | Node(brace: bool, inside: Forest, after: Forest)

  function Render(f: Forest): string {
    match f
    case Leaf => []
    case Node(brace, inside, after) =>
      [if brace then '{' else '['] + (Render(inside) + ([if brace then '}' else ']'] + Render(after)))
  }

  ghost predicate Balanced(brackets: string) {
    exists f :: Render(f) == brackets
  }

  /** JSON lexing: a backslash escapes only inside a string. */
  datatype Lex = Outside | Inside | Escaped

  function LexStep(m: Lex, ch: char): Lex {
    match m
    case Outside => if ch == '"' then Inside else Outside
    case Inside => if ch == '\\' then Escaped else if ch == '"' then Outside else Inside
    case Escaped => Inside
  }

  function LexEnd(m: Lex, text: string): Lex
    decreases |text|
  {
    if text == [] then m else LexEnd(LexStep(m, text[0]), text[1..])
  }

  /** The brackets of a text that lie outside its strings. */
  function Structure(m: Lex, text: string): string
    decreases |text|
  {
    if text == [] then []
    else (if m == Outside && (IsOpener(text[0]) || IsCloser(text[0])) then [text[0]] else []) +
         Structure(LexStep(m, text[0]), text[1..])
  }

  ghost predicate WellBracketed(text: string) {
    LexEnd(Outside, text) == Outside && Balanced(Structure(Outside, text))
  }

  predicate NoBackslashOutside(m: Lex, text: string)
    decreases |text|
  {
    text == [] || (!(m == Outside && text[0] == '\\') && NoBackslashOutside(LexStep(m, text[0]), text[1..]))
  }

  /** The matching discipline: the closers owed after reading, or None if a closer does not match. */
  function Match(stack: string, brackets: string): Option<string>
    decreases |brackets|
  {
    if brackets == [] then Some(stack)
    else if IsOpener(brackets[0]) then Match(stack + [CloserFor(brackets[0])], brackets[1..])
    else if stack != [] && Last(stack) == brackets[0] then Match(Init(stack), brackets[1..])
    else None
  }

  lemma {:induction false} MatchForest(stack: string, f: Forest, rest: string)
    ensures Match(stack, Render(f) + rest) == Match(stack, rest)
    decreases f
  {
    match f
    case Leaf => assert [] + rest == rest;
    case Node(brace, inside, after) =>
      var opener, closer := if brace then '{' else '[', if brace then '}' else ']';
      var tail := [closer] + (Render(after) + rest);
      assert (Render(f) + rest)[0] == opener;
      assert (Render(f) + rest)[1..] == Render(inside) + tail;
      MatchForest(stack + [closer], inside, tail);
      assert tail[1..] == Render(after) + rest;
      assert Init(stack + [closer]) == stack;
      MatchForest(stack, after, rest);
  }

  /** Forests separated by the closers owed, innermost first. */
  function Interleaved(forests: seq<Forest>, stack: string): string
    requires |forests| == |stack| + 1
    decreases |stack|
  {
    Render(forests[0]) + if stack == [] then [] else [Last(stack)] + Interleaved(forests[1..], Init(stack))
  }

  lemma TreeText(brace: bool, inside: Forest, next: Forest, after: string)
    ensures Render(Node(brace, inside, next)) + after ==
            [if brace then '{' else '['] + (Render(inside) + ([if brace then '}' else ']'] + (Render(next) + after)))
  {
    var opener, closer := [if brace then '{' else '['], [if brace then '}' else ']'];
    Regrouped(opener, Render(inside) + (closer + Render(next)), after);
    Regrouped(Render(inside), closer + Render(next), after);
    Regrouped(closer, Render(next), after);
  }

  /** What follows the innermost of the forests. */
  function AfterFirst(forests: seq<Forest>, stack: string): string
    requires |forests| == |stack| + 1
  {
    if stack == [] then [] else [Last(stack)] + Interleaved(forests[1..], Init(stack))
  }

  /** The two forests on either side of an opener's closer become one tree. */
  lemma Graft(stack: string, brackets: string, inner: seq<Forest>) returns (forests: seq<Forest>)
    requires brackets != [] && IsOpener(brackets[0]) && |inner| == |stack| + 2
    requires Interleaved(inner, stack + [CloserFor(brackets[0])]) == brackets[1..]
    ensures |forests| == |stack| + 1 && Interleaved(forests, stack) == brackets
  {
    var closer, brace := CloserFor(brackets[0]), brackets[0] == '{';
    forests := [Node(brace, inner[0], inner[1])] + inner[2..];
    assert brackets[1..] == Render(inner[0]) + ([closer] + (Render(inner[1]) + AfterFirst(inner[1..], stack))) by {
      assert Init(stack + [closer]) == stack && Last(stack + [closer]) == closer;
    }
    assert AfterFirst(inner[1..], stack) == AfterFirst(forests, stack) by {
      assert forests[1..] == inner[1..][1..];
    }
    TreeText(brace, inner[0], inner[1], AfterFirst(forests, stack));
    assert brackets == [brackets[0]] + brackets[1..];
  }

  lemma {:induction false} MatchGivesForests(stack: string, brackets: string) returns (forests: seq<Forest>)
    requires Match(stack, brackets) == Some([])
    requires forall c :: c in brackets ==> IsOpener(c) || IsCloser(c)
    ensures |forests| == |stack| + 1 && Interleaved(forests, stack) == brackets
    decreases |brackets|
  {
    if brackets == [] {
      forests := [Leaf];
    } else if IsOpener(brackets[0]) {
      var inner := MatchGivesForests(stack + [CloserFor(brackets[0])], brackets[1..]);
      forests := Graft(stack, brackets, inner);
    } else {
      var later := MatchGivesForests(Init(stack), brackets[1..]);
      forests := [Leaf] + later;
      assert forests[1..] == later;
      assert brackets == [brackets[0]] + brackets[1..];
    }
  }

  lemma {:induction false} StructureIsBrackets(m: Lex, text: string)
    ensures forall c :: c in Structure(m, text) ==> IsOpener(c) || IsCloser(c)
    decreases |text|
  {
    if text != [] {
      StructureIsBrackets(LexStep(m, text[0]), text[1..]);
    }
  }

  lemma BalancedIffMatches(brackets: string)
    requires forall c :: c in brackets ==> IsOpener(c) || IsCloser(c)
    ensures Balanced(brackets) <==> Match([], brackets) == Some([])
  {
    if Balanced(brackets) {
      var f :| Render(f) == brackets;
      MatchForest([], f, []);
      assert Render(f) + [] == Render(f);
    }
    if Match([], brackets) == Some([]) {
      var forests := MatchGivesForests([], brackets);
      assert Render(forests[0]) + [] == Render(forests[0]);
    }
  }

  /******* Repairing: fix, then close *******/

  /** A structural closer that no open bracket waits for. */
  predicate IsStray(s: Scan, ch: char) {
    !PassesThrough(s, ch) && IsCloser(ch) && ch !in s.stack
  }

  /** Such a closer is met somewhere in the text. */
  ghost predicate HasStrayCloser(s: Scan, text: string)
    decreases |text|
  {
    text != [] && (
      || IsStray(s, text[0])
      || HasStrayCloser(FixNext(s, text[0]), text[1..]))
  }

  /** The scanner's flags agree with JSON lexing as long as no backslash is met outside a string. */
  ghost predicate InMode(s: Scan, m: Lex) {
    match m
    case Outside => !s.inString && !s.escape
    case Inside => s.inString && !s.escape
    case Escaped => s.inString && s.escape
  }

  lemma {:induction false} LexConcat(m: Lex, a: string, b: string)
    ensures LexEnd(m, a + b) == LexEnd(LexEnd(m, a), b)
    ensures Structure(m, a + b) == Structure(m, a) + Structure(LexEnd(m, a), b)
    decreases |a|
  {
    if a == [] {
      assert a + b == b;
    } else {
      assert (a + b)[1..] == a[1..] + b;
      LexConcat(LexStep(m, a[0]), a[1..], b);
    }
  }

  lemma {:induction false} MatchConcat(stack: string, a: string, b: string)
    ensures Match(stack, a + b) == (match Match(stack, a) case None => None case Some(after) => Match(after, b))
    decreases |a|
  {
    if a == [] {
      assert a + b == b;
    } else {
      assert (a + b)[1..] == a[1..] + b;
      if IsOpener(a[0]) {
        MatchConcat(stack + [CloserFor(a[0])], a[1..], b);
      } else if stack != [] && Last(stack) == a[0] {
        MatchConcat(Init(stack), a[1..], b);
      }
    }
  }

  lemma {:induction false} ClosersAreStructure(closers: string, m: Lex)
    requires ClosersOnly(closers)
    ensures m == Outside ==> LexEnd(m, closers) == Outside && Structure(m, closers) == closers
    ensures m != Outside ==> LexEnd(m, closers) != Outside
    decreases |closers|
  {
    if closers != [] {
      assert closers == [closers[0]] + closers[1..];
      assert IsCloser(closers[0]) && forall c :: c in closers[1..] ==> c in closers;
      ClosersAreStructure(closers[1..], LexStep(m, closers[0]));
    }
  }

  lemma {:induction false} UnwindMatches(stack: string, ch: char)
    requires ClosersOnly(stack) && ch in stack
    ensures ClosersOnly(Missing(stack, ch))
    ensures Match(stack, Missing(stack, ch) + [ch]) == Some(Unwound(stack, ch))
  {
    assert IsCloser(Last(stack));
    if Last(stack) == ch {
      assert [] + [ch] == [ch] && [ch][1..] == [];
    } else {
      UnwindMatches(Init(stack), ch);
      assert ([Last(stack)] + Missing(Init(stack), ch) + [ch])[1..] == Missing(Init(stack), ch) + [ch];
    }
  }

  /** One step's output read as JSON: where it leads, and how its brackets match. */
  lemma StepStructure(s: Scan, m: Lex, ch: char)
    requires ClosersOnly(s.stack) && InMode(s, m) && !(m == Outside && ch == '\\')
    ensures InMode(FixNext(s, ch), LexStep(m, ch)) && LexEnd(m, Emitted(s, ch)) == LexStep(m, ch)
    ensures Match(s.stack, Structure(m, Emitted(s, ch))) == if IsStray(s, ch) then None else Some(FixNext(s, ch).stack)
  {
    if !PassesThrough(s, ch) && IsCloser(ch) && ch in s.stack {
      UnwindMatches(s.stack, ch);
      ClosersAreStructure(Missing(s.stack, ch) + [ch], Outside);
    } else if !PassesThrough(s, ch) {
      assert [ch][1..] == [];
    }
  }

  /** The brackets of the fixed text match as far as they go, unless the input has a stray closer. */
  lemma {:induction false} FixStructure(s: Scan, m: Lex, text: string)
    requires ClosersOnly(s.stack) && InMode(s, m) && NoBackslashOutside(m, text)
    ensures LexEnd(m, FixFrom(s, text)) == LexEnd(m, text)
    ensures Match(s.stack, Structure(m, FixFrom(s, text))) ==
              if HasStrayCloser(s, text) then None else Some(FixEnd(s, text).stack)
    decreases |text|
  {
    if text != [] {
      var ch, s1, m1 := text[0], FixNext(s, text[0]), LexStep(m, text[0]);
      StepReadsBack(s, ch);
      StepStructure(s, m, ch);
      FixStructure(s1, m1, text[1..]);
      LexConcat(m, Emitted(s, ch), FixFrom(s1, text[1..]));
      MatchConcat(s.stack, Structure(m, Emitted(s, ch)), Structure(m1, FixFrom(s1, text[1..])));
    }
  }

  lemma {:induction false} LastComesFirst(stack: string)
    requires stack != []
    ensures Reversed(stack) == [Last(stack)] + Reversed(Init(stack))
  {
    if |stack| > 1 {
      LastComesFirst(stack[1..]);
      assert Init(stack[1..]) == Init(stack)[1..];
    }
  }

  lemma {:induction false} ReversedCloses(stack: string)
    requires ClosersOnly(stack)
    ensures ClosersOnly(Reversed(stack)) && Match(stack, Reversed(stack)) == Some([])
  {
    if stack != [] {
      ReversedCloses(Init(stack));
      LastComesFirst(stack);
      assert IsCloser(Last(stack));
    }
  }

  /** A tail of commas and white space neither enters nor leaves a string and holds no bracket. */
  lemma {:induction false} BlandTail(m: Lex, tail: string)
    requires forall c :: c in tail ==> c == ',' || IsSpace(c)
    ensures LexEnd(m, tail) == Outside <==> m == Outside
    ensures m == Outside ==> Structure(m, tail) == []
    decreases |tail|
  {
    if tail != [] {
      assert tail == [tail[0]] + tail[1..];
      assert tail[0] in tail && forall c :: c in tail[1..] ==> c in tail;
      BlandTail(LexStep(m, tail[0]), tail[1..]);
    }
  }

  lemma StrippingIsBland(m: Lex, text: string)
    ensures LexEnd(m, StripTrailingComma(text)) == Outside <==> LexEnd(m, text) == Outside
    ensures LexEnd(m, text) == Outside ==> Structure(m, StripTrailingComma(text)) == Structure(m, text)
  {
    var kept := StripTrailingComma(text);
    assert kept <= text;
    var tail := text[|kept|..];
    assert text == kept + tail;
    forall c | c in tail
      ensures c == ',' || IsSpace(c)
    {
      var i :| 0 <= i < |tail| && tail[i] == c;
      assert text[|kept| + i] == c;
    }
    LexConcat(m, kept, tail);
    BlandTail(LexEnd(m, kept), tail);
  }

  /** Fixing and then closing a text without backslashes outside strings gives well-bracketed text iff the text
      has no stray closer and does not end inside a string. */
  lemma RepairedIff(text: string)
    requires NoBackslashOutside(Outside, text)
    ensures WellBracketed(Closed(Fixed(text))) <==>
            !HasStrayCloser(START, text) && LexEnd(Outside, text) == Outside
  {
    var s, fixed := FixEnd(START, text), Fixed(text);
    FixReadsBack(START, text);
    FixStructure(START, Outside, text);
    var kept, owed := StripTrailingComma(fixed), Reversed(s.stack);
    StrippingIsBland(Outside, fixed);
    ReversedCloses(s.stack);
    LexConcat(Outside, kept, owed);
    ClosersAreStructure(owed, LexEnd(Outside, kept));
    if LexEnd(Outside, text) == Outside {
      MatchConcat([], Structure(Outside, fixed), owed);
      StructureIsBrackets(Outside, Closed(fixed));
      BalancedIffMatches(Structure(Outside, Closed(fixed)));
    }
  }

  /** The closers that a text still owes when it ends, innermost first. */
  function Owed(text: string): string {
    Reversed(CloseScan(START, text).stack)
  }

  ghost predicate AllSpace(tail: string) {
    forall i :: 0 <= i < |tail| ==> IsSpace(tail[i])
  }

  /** A comma at the end, followed by white space at most, is dropped with that white space before closing. */
  lemma TrailingCommaGoes(head: string, tail: string)
    requires AllSpace(tail)
    ensures Closed(head + ("," + tail)) == head + Owed(head + ("," + tail))
  {
    var text := head + ("," + tail);
    var kept := RStrip(text);
    assert text[|head|] == ',' && !IsSpace(',');
    assert forall i :: |head| < i < |text| ==> text[i] == tail[i - |head| - 1];
    assert kept == text[..|head| + 1];
    assert Init(kept) == head;
  }

  /** Any other text is closed as it is, white space included. */
  lemma OthersAreClosedWhole(text: string)
    requires forall head: string, tail: string :: AllSpace(tail) ==> text != head + ("," + tail)
    ensures Closed(text) == text + Owed(text)
  {
    CommaFound(text);
  }

  lemma CommaFound(text: string)
    ensures
      var kept := RStrip(text);
      kept != [] && Last(kept) == ',' ==>
        AllSpace(text[|kept|..]) && text == Init(kept) + ("," + text[|kept|..])
  {
    var kept := RStrip(text);
    assert text == kept + text[|kept|..];
    if kept != [] && Last(kept) == ',' {
      assert kept == Init(kept) + ",";
      Regrouped(Init(kept), ",", text[|kept|..]);
    }
  }

  /** Well-bracketed text is left alone, and only loses a trailing comma when closed. */
  lemma WellBracketedUnchanged(text: string)
    requires NoBackslashOutside(Outside, text) && WellBracketed(text)
    ensures Fixed(text) == text
    ensures Closed(text) == StripTrailingComma(text)
  {
    StructureIsBrackets(Outside, text);
    BalancedIffMatches(Structure(Outside, text));
    MatchedIsUnchanged(START, Outside, text);
    FixReadsBack(START, text);
    assert Reversed<char>([]) == [];
  }

  /** A character that keeps the brackets matched is written as it is. */
  lemma MatchedStep(s: Scan, m: Lex, ch: char, later: string)
    requires InMode(s, m) && !(m == Outside && ch == '\\')
    requires Match(s.stack, (if m == Outside && (IsOpener(ch) || IsCloser(ch)) then [ch] else []) + later).Some?
    ensures Emitted(s, ch) == [ch] && InMode(FixNext(s, ch), LexStep(m, ch))
    ensures Match(FixNext(s, ch).stack, later) ==
            Match(s.stack, (if m == Outside && (IsOpener(ch) || IsCloser(ch)) then [ch] else []) + later)
  {
    if m == Outside && (IsOpener(ch) || IsCloser(ch)) {
      assert ([ch] + later)[1..] == later;
      if !IsOpener(ch) {
        assert Last(s.stack) == ch;
        assert Missing(s.stack, ch) == [] && [] + [ch] == [ch];
      }
    } else {
      assert [] + later == later;
    }
  }

  lemma {:induction false} MatchedIsUnchanged(s: Scan, m: Lex, text: string)
    requires InMode(s, m) && NoBackslashOutside(m, text)
    requires Match(s.stack, Structure(m, text)).Some?
    ensures FixFrom(s, text) == text
    ensures FixEnd(s, text).stack == Match(s.stack, Structure(m, text)).value
    decreases |text|
  {
    if text != [] {
      var ch := text[0];
      var m1 := LexStep(m, ch);
      MatchedStep(s, m, ch, Structure(m1, text[1..]));
      MatchedIsUnchanged(FixNext(s, ch), m1, text[1..]);
      assert text == [ch] + text[1..];
    }
  }

  /******* Recovery: a well-bracketed document that lost closers and its end *******/

  /** t is d with some closers outside strings dropped, and cut off at some point outside a string. */
  ghost predicate Damaged(m: Lex, d: string, t: string)
    decreases |d|
  {
    || (t == [] && m == Outside)
    || (d != [] && t != [] && t[0] == d[0] && Damaged(LexStep(m, d[0]), d[1..], t[1..]))
    || (d != [] && m == Outside && IsCloser(d[0]) && Damaged(m, d[1..], t))
  }

  /** a is a subsequence of b. */
  ghost predicate Embedded(a: string, b: string)
    decreases |b|
  {
    a == [] || (b != [] && ((Last(a) == Last(b) && Embedded(Init(a), Init(b))) || Embedded(a, Init(b))))
  }

  lemma {:induction false} EmbeddedInit(a: string, b: string)
    requires a != [] && Embedded(a, b)
    ensures Embedded(Init(a), b)
    decreases |b|
  {
    if Last(a) == Last(b) && Embedded(Init(a), Init(b)) {
      assert Init(b) + [Last(b)] == b;
    } else {
      EmbeddedInit(a, Init(b));
      assert Init(b) + [Last(b)] == b;
    }
  }

  /** Popping the owed closer from the embedded stack is matched by unwinding to it in the larger one. */
  lemma {:induction false} EmbeddedUnwind(a: string, b: string)
    requires a != [] && Embedded(a, b)
    ensures Last(a) in b && Embedded(Init(a), Unwound(b, Last(a)))
    decreases |b|
  {
    if Last(a) == Last(b) {
      if !Embedded(Init(a), Init(b)) {
        EmbeddedInit(a, Init(b));
      }
    } else {
      EmbeddedUnwind(a, Init(b));
    }
  }

  lemma {:induction false} DamagedHasNoStray(s: Scan, m: Lex, owed: string, d: string, t: string)
    requires InMode(s, m) && Damaged(m, d, t) && NoBackslashOutside(m, d) && Embedded(owed, s.stack)
    requires Match(owed, Structure(m, d)).Some?
    ensures !HasStrayCloser(s, t) && NoBackslashOutside(m, t) && LexEnd(m, t) == Outside
    decreases |d|
  {
    if t == [] && m == Outside {
    } else {
      var ch, m1 := d[0], LexStep(m, d[0]);
      var structural := m == Outside && (IsOpener(ch) || IsCloser(ch));
      var later := Structure(m1, d[1..]);
      assert structural ==> Structure(m, d) == [ch] + later && Structure(m, d)[1..] == later;
      assert !structural ==> Structure(m, d) == later;
      var owed' := if !structural then owed else if IsOpener(ch) then owed + [CloserFor(ch)] else Init(owed);
      if t != [] && t[0] == ch && Damaged(m1, d[1..], t[1..]) {
        var s1 := FixNext(s, ch);
        if structural && !IsOpener(ch) {
          EmbeddedUnwind(owed, s.stack);
        }
        DamagedHasNoStray(s1, m1, owed', d[1..], t[1..]);
      } else {
        EmbeddedInit(owed, s.stack);
        DamagedHasNoStray(s, m, owed', d[1..], t);
      }
    }
  }

  /** Whatever closers a well-bracketed document lost, and wherever outside a string it was cut off,
      fixing and closing what is left gives well-bracketed text again. */
  lemma DamageIsRepaired(document: string, text: string)
    requires NoBackslashOutside(Outside, document) && WellBracketed(document)
    requires Damaged(Outside, document, text)
    ensures WellBracketed(Closed(Fixed(text)))
  {
    StructureIsBrackets(Outside, document);
    BalancedIffMatches(Structure(Outside, document));
    DamagedHasNoStray(START, Outside, [], document, text);
    RepairedIff(text);
  }
}
