/** Semantic Versioning 2.0.0, item 11, defined on dot-separated identifiers, and exactly when comparing prerelease
    labels as text gives the same order. */
module Precedence {
  import opened Prelude
  import opened Decimal
  import opened SemVer

  /******* Item 11 *******/

  /** The dot-separated identifiers of a label. */
  function Identifiers(s: string): (ids: seq<string>)
    ensures ids != []
  {
    if s == [] then [[]]
    else
      var rest := Identifiers(s[1..]);
      if s[0] == '.' then [[]] + rest else [[s[0]] + rest[0]] + rest[1..]
  }

  function Joined(ids: seq<string>): string
    decreases |ids|, 0
  {
    if ids == [] then [] else ids[0] + JoinedRest(ids[1..])
  }

  /** What follows an identifier. */
  function JoinedRest(ids: seq<string>): string
    decreases |ids|, 1
  {
    if ids == [] then [] else "." + Joined(ids)
  }

  predicate IsNumeric(id: string) {
    id != [] && AllDigits(id)
  }

  /** Item 9: identifiers are not empty, hold no dot, and numeric ones have no leading zero. */
  predicate ValidIdentifier(id: string) {
    && IsLabel(id) && '.' !in id
    && (IsNumeric(id) ==> Canonical(id))
  }

  ghost predicate AllValid(ids: seq<string>) {
    forall i :: 0 <= i < |ids| ==> ValidIdentifier(ids[i])
  }

  /** A release, or a prerelease that item 9 allows. */
  ghost predicate ValidVersion(v: SkillVersion) {
    v.prerelease != [] ==> AllValid(Identifiers(v.prerelease))
  }

  /** Numbers by value, before words; words in ASCII order. */
  function CompareIdentifiers(x: string, y: string): int {
    if IsNumeric(x) && IsNumeric(y) then CompareNumber(Value(x), Value(y))
    else if IsNumeric(x) then -1
    else if IsNumeric(y) then 1
    else CompareText(x, y)
  }

  /** From left to right until a difference; a larger set of fields comes after its beginning. */
  function CompareLists(a: seq<string>, b: seq<string>): int {
    if a == [] then (if b == [] then 0 else -1)
    else if b == [] then 1
    else if a[0] != b[0] then CompareIdentifiers(a[0], b[0])
    else CompareLists(a[1..], b[1..])
  }

  predicate SameRelease(v: SkillVersion, w: SkillVersion) {
    v.major == w.major && v.minor == w.minor && v.patch == w.patch
  }

  /** The sign of the precedence of two versions. */
  function PrecedenceOf(v: SkillVersion, w: SkillVersion): int {
    if v.major != w.major then CompareNumber(v.major, w.major)
    else if v.minor != w.minor then CompareNumber(v.minor, w.minor)
    else if v.patch != w.patch then CompareNumber(v.patch, w.patch)
    else if v.prerelease == [] then (if w.prerelease == [] then 0 else 1)
    else if w.prerelease == [] then -1
    else CompareLists(Identifiers(v.prerelease), Identifiers(w.prerelease))
  }

  /******* The condition *******/

  /** x begins y, which goes on with a hyphen where the label of x goes on with a dot: the hyphen is smaller. */
  predicate Overtaken(x: string, goesOn: bool, y: string) {
    goesOn && |x| < |y| && y[..|x|] == x && y[|x|] == '-'
  }

  /** The number x is at most what as many leading digits of the larger number y make. */
  predicate LeadsUp(x: string, y: string) {
    |x| <= |y| && AllDigits(x) && AllDigits(y[..|x|]) && Value(x) <= Value(y[..|x|])
  }

  /** The number x is put before the word y: as far as both have leading digits, those of the word make the larger
      number, or they are equal and the word does not go on with a hyphen while the label of the number goes on. */
  predicate NumberFirst(x: string, goesOn: bool, y: string)
    requires AllDigits(x)
  {
    var d := DigitRun(y);
    var n := if |x| < d then |x| else d;
    if Value(x[..n]) != Value(y[..n]) then Value(x[..n]) < Value(y[..n])
    else |x| < d || (d < |y| && y[d] != '-') || (|x| == d && !goesOn)
  }

  /** Text order puts the different identifiers x and y as item 11 does; goesOn says whether more identifiers follow. */
  predicate OrderedAlike(x: string, xGoesOn: bool, y: string, yGoesOn: bool) {
    if IsNumeric(x) && IsNumeric(y) then (if Value(x) < Value(y) then LeadsUp(x, y) else LeadsUp(y, x))
    else if IsNumeric(x) then NumberFirst(x, xGoesOn, y)
    else if IsNumeric(y) then NumberFirst(y, yGoesOn, x)
    else !Overtaken(x, xGoesOn, y) && !Overtaken(y, yGoesOn, x)
  }

  /** The same for two lists: the first identifiers that differ decide, and nothing can go wrong if one list begins the
      other. */
  predicate ListsAlike(a: seq<string>, b: seq<string>) {
    if a == [] || b == [] then true
    else if a[0] == b[0] then ListsAlike(a[1..], b[1..])
    else OrderedAlike(a[0], |a| > 1, b[0], |b| > 1)
  }

  /******* Numeric identifiers *******/

  /** Among digits of one length, text order is the order of the values. */
  lemma {:induction false} SameLengthOrder(x: string, y: string)
    requires |x| == |y| && AllDigits(x) && AllDigits(y)
    ensures CompareText(x, y) < 0 <==> Value(x) < Value(y)
    ensures CompareText(x, y) == 0 <==> Value(x) == Value(y)
  {
    if x != [] {
      SameLengthOrder(Init(x), Init(y));
      CompareLast(Init(x), Init(y), Last(x), Last(y));
      assert x == Init(x) + [Last(x)] && y == Init(y) + [Last(y)];
    }
  }

  lemma {:induction false} CompareLast(a: string, b: string, c: char, d: char)
    requires |a| == |b|
    ensures CompareText(a + [c], b + [d]) ==
              if CompareText(a, b) != 0 then CompareText(a, b) else if c < d then -1 else if c == d then 0 else 1
  {
    if a == [] {
      assert a + [c] == [c] && b + [d] == [d];
      assert CompareText([c][1..], [d][1..]) == 0;
    } else {
      assert (a + [c])[1..] == a[1..] + [c] && (b + [d])[1..] == b[1..] + [d];
      CompareLast(a[1..], b[1..], c, d);
    }
  }

  /** A difference within the first characters decides, whatever follows. */
  lemma {:induction false} DecidedEarly(a: string, b: string, restA: string, restB: string)
    requires |a| == |b| && CompareText(a, b) != 0
    ensures CompareText(a + restA, b + restB) == CompareText(a, b)
  {
    assert (a + restA)[1..] == a[1..] + restA && (b + restB)[1..] == b[1..] + restB;
    if a[0] == b[0] {
      DecidedEarly(a[1..], b[1..], restA, restB);
    }
  }

  lemma {:induction false} LongerIsLarger(x: string, y: string)
    requires Canonical(x) && Canonical(y) && |x| < |y|
    ensures Value(x) < Value(y)
  {
    PrintOfValue(y);
    if |x| == 1 {
      assert Value(x) == 10 * Value(Init(x)) + DigitValue(Last(x)) && Init(x) == [];
    } else {
      LongerIsLarger(Init(x), Init(y));
    }
  }

  /** What follows an identifier: nothing, or a dot and further identifiers. */
  predicate IdentifierEnds(rest: string) {
    rest == [] || rest[0] == '.'
  }

  lemma EndsBeforeDigits(x: string, rest: string, more: string)
    requires IdentifierEnds(rest) && more != [] && IsDigit(more[0])
    ensures CompareText(x + rest, x + more) < 0
  {
    CompareSameStart(x, rest, more);
  }

  /** Numbers of one length, where the second goes on with a digit if the two are equal. */
  lemma AlignedNumbers(x: string, start: string, restX: string, end: string)
    requires |x| == |start| && AllDigits(x) && AllDigits(start) && IdentifierEnds(restX)
    requires Value(x) == Value(start) ==> end != [] && IsDigit(end[0])
    ensures CompareText(x + restX, start + end) < 0 <==> Value(x) <= Value(start)
  {
    SameLengthOrder(x, start);
    CompareTextOrder(x, start, start);
    if Value(x) == Value(start) {
      EndsBeforeDigits(x, restX, end);
    } else {
      DecidedEarly(x, start, restX, end);
    }
  }

  lemma SmallerNotLonger(x: string, y: string)
    requires Canonical(x) && Canonical(y) && Value(x) < Value(y)
    ensures |x| <= |y|
  {
    if |y| < |x| {
      LongerIsLarger(y, x);
    }
  }

  lemma NumbersAsText(x: string, start: string, more: string, restX: string, restY: string)
    requires |x| == |start| && AllDigits(x) && AllDigits(start) && AllDigits(more) && IdentifierEnds(restX)
    requires more == [] ==> Value(x) != Value(start)
    ensures CompareText(x + restX, (start + more) + restY) < 0 <==> Value(x) <= Value(start)
  {
    assert (start + more) + restY == start + (more + restY);
    assert more != [] ==> (more + restY)[0] == more[0];
    AlignedNumbers(x, start, restX, more + restY);
  }

  lemma SplitDigits(y: string, n: nat) returns (start: string, more: string)
    requires AllDigits(y) && n <= |y|
    ensures y == start + more && start == y[..n] && AllDigits(start) && AllDigits(more) && (more == [] ==> start == y)
  {
    start, more := y[..n], y[n..];
  }

  lemma NumbersInText(stem: string, x: string, y: string, restX: string, restY: string)
    requires AllDigits(x) && AllDigits(y) && |x| <= |y| && Value(x) != Value(y) && IdentifierEnds(restX)
    ensures CompareText(stem + (x + restX), stem + (y + restY)) < 0 <==> Value(x) <= Value(y[..|x|])
  {
    var start, more := SplitDigits(y, |x|);
    NumbersAsText(x, start, more, restX, restY);
    CompareSameStart(stem, x + restX, y + restY);
  }

  /******* Two different identifiers in text *******/

  lemma LabelCharAndDot(c: char)
    requires IsLabelChar(c) && c != '.'
    ensures '.' < c || c == '-'
  {
  }

  /** One identifier begins the other: what follows decides. */
  lemma BeginningInText(x: string, more: string, restX: string, restY: string)
    requires IdentifierEnds(restX) && more != [] && IsLabelChar(more[0]) && more[0] != '.'
    ensures CompareText(x + restX, (x + more) + restY) == if restX != [] && more[0] == '-' then 1 else -1
    ensures CompareText((x + more) + restY, x + restX) == if restX != [] && more[0] == '-' then -1 else 1
  {
    assert (x + more) + restY == x + (more + restY);
    CompareSameStart(x, restX, more + restY);
    CompareSameStart(x, more + restY, restX);
    LabelCharAndDot(more[0]);
    assert (more + restY)[0] == more[0];
  }

  /** Neither identifier begins the other: their first difference decides. */
  lemma DifferenceInText(x: string, y: string, n: nat, restX: string, restY: string)
    requires n <= |x| && n <= |y| && x[..n] != y[..n]
    ensures CompareText(x + restX, y + restY) == CompareText(x, y)
  {
    var a, b := x[..n], y[..n];
    CompareTextOrder(a, b, b);
    assert x == a + x[n..] && y == b + y[n..];
    assert x + restX == a + (x[n..] + restX) && y + restY == b + (y[n..] + restY);
    DecidedEarly(a, b, x[n..], y[n..]);
    DecidedEarly(a, b, x[n..] + restX, y[n..] + restY);
  }

  /** How two different identifiers compare within their labels. */
  lemma IdentifiersInText(x: string, y: string, restX: string, restY: string)
    requires x != y && IsLabel(x) && IsLabel(y) && '.' !in x && '.' !in y && IdentifierEnds(restX) &&
             IdentifierEnds(restY)
    ensures CompareText(x + restX, y + restY) ==
              if Overtaken(x, restX != [], y) then 1 else if Overtaken(y, restY != [], x) then -1 else CompareText(x, y)
  {
    if |x| < |y| && y[..|x|] == x {
      var more := y[|x|..];
      assert y == x + more && more[0] == y[|x|] && more[0] in y;
      BeginningInText(x, more, restX, restY);
      BeginningInText(x, more, [], []);
      assert x + [] == x && y + [] == y;
    } else if |y| < |x| && x[..|y|] == y {
      var more := x[|y|..];
      assert x == y + more && more[0] == x[|y|] && more[0] in x;
      BeginningInText(y, more, restY, restX);
      BeginningInText(y, more, [], []);
      assert x + [] == x && y + [] == y;
    } else {
      var n := if |x| <= |y| then |x| else |y|;
      assert x[..|x|] == x && y[..|y|] == y;
      DifferenceInText(x, y, n, restX, restY);
    }
  }

  lemma NumbersOrderedAlike(x: string, y: string, restX: string, restY: string)
    requires Canonical(x) && Canonical(y) && Value(x) < Value(y) && IdentifierEnds(restX)
    ensures CompareText(x + restX, y + restY) < 0 <==> LeadsUp(x, y)
  {
    SmallerNotLonger(x, y);
    NumbersInText([], x, y, restX, restY);
    assert [] + (x + restX) == x + restX && [] + (y + restY) == y + restY;
  }

  lemma NotEqualInText(x: string, y: string, restX: string, restY: string)
    requires x != y && IsLabel(x) && IsLabel(y) && '.' !in x && '.' !in y && IdentifierEnds(restX) &&
             IdentifierEnds(restY)
    ensures CompareText(x + restX, y + restY) != 0
  {
    IdentifiersInText(x, y, restX, restY);
    CompareTextOrder(x, y, y);
  }

  /** Text order and item 11 agree on two different identifiers, within their labels, exactly under the condition. */
  lemma IdentifiersAgreeIff(x: string, y: string, restX: string, restY: string)
    requires x != y && ValidIdentifier(x) && ValidIdentifier(y) && IdentifierEnds(restX) && IdentifierEnds(restY)
    ensures CompareText(x + restX, y + restY) == CompareIdentifiers(x, y) <==>
            OrderedAlike(x, restX != [], y, restY != [])
  {
    CompareTextOrder(x, y, y);
    if IsNumeric(x) && IsNumeric(y) {
      NumbersAgreeIff(x, y, restX, restY);
    } else {
      IdentifiersInText(x, y, restX, restY);
      if |x| < |y| && y[..|x|] == x {
        BeginningIsSmaller(x, y);
      } else if |y| < |x| && x[..|y|] == y {
        BeginningIsSmaller(y, x);
      }
      if IsNumeric(x) {
        NumberFirstIff(x, restX != [], y);
      } else if IsNumeric(y) {
        NumberFirstIff(y, restY != [], x);
      }
    }
  }

  /** Digits of one length that differ decide the comparison of what they begin. */
  lemma LeadingDigitsDecide(x: string, y: string, n: nat)
    requires n <= |x| && n <= |y| && AllDigits(x[..n]) && AllDigits(y[..n]) && x[..n] != y[..n]
    ensures CompareText(x, y) < 0 <==> Value(x[..n]) < Value(y[..n])
    ensures Value(x[..n]) != Value(y[..n])
  {
    var a, b := x[..n], y[..n];
    SameLengthOrder(a, b);
    CompareTextOrder(a, b, b);
    DecidedEarly(a, b, x[n..], y[n..]);
    assert a + x[n..] == x && b + y[n..] == y;
  }

  /** A digit against the letter or hyphen that ends the word's leading digits. */
  lemma DigitAgainstWord(x: string, y: string, d: nat)
    requires d < |x| && d < |y| && x[..d] == y[..d]
    requires IsDigit(x[d]) && IsLabelChar(y[d]) && y[d] != '.' && !IsDigit(y[d])
    ensures CompareText(x, y) < 0 <==> y[d] != '-'
  {
    CompareSameStart(x[..d], x[d..], y[d..]);
    assert x[..d] + x[d..] == x && x[..d] + y[d..] == y;
  }

  lemma BeginningsAgree(x: string, y: string, n: nat)
    requires n <= |x| && n <= |y|
    ensures |x| <= |y| && y[..|x|] == x ==> x[..n] == y[..n]
  {
    if |x| <= |y| && y[..|x|] == x {
      assert y[..|x|][..n] == y[..n];
    }
  }

  lemma NumberFirstIff(x: string, goesOn: bool, y: string)
    requires IsNumeric(x) && ValidIdentifier(y) && !IsNumeric(y)
    ensures NumberFirst(x, goesOn, y) <==> CompareText(x, y) < 0 && !Overtaken(x, goesOn, y)
  {
    var d := DigitRun(y);
    var n := if |x| < d then |x| else d;
    assert y[..|y|] == y;
    assert d < |y| && y[d] in y;
    if x[..n] != y[..n] {
      LeadingDigitsDecide(x, y, n);
      BeginningsAgree(x, y, n);
    } else if |x| <= d {
      assert y[..|x|] == x;
      BeginningIsSmaller(x, y);
      assert |x| < d ==> y[|x|] == y[..d][|x|];
    } else {
      DigitAgainstWord(x, y, d);
      assert |x| < |y| ==> y[..|x|][d] == y[d];
    }
  }

  lemma BeginningIsSmaller(x: string, y: string)
    requires |x| < |y| && y[..|x|] == x
    ensures CompareText(x, y) == -1
  {
    CompareSameStart(x, [], y[|x|..]);
    assert x + [] == x && x + y[|x|..] == y;
  }

  lemma NumbersAgreeIff(x: string, y: string, restX: string, restY: string)
    requires x != y && ValidIdentifier(x) && ValidIdentifier(y) && IdentifierEnds(restX) && IdentifierEnds(restY)
    requires IsNumeric(x) && IsNumeric(y)
    ensures CompareText(x + restX, y + restY) == CompareIdentifiers(x, y) <==>
            OrderedAlike(x, restX != [], y, restY != [])
  {
    PrintOfValue(x);
    PrintOfValue(y);
    NotEqualInText(x, y, restX, restY);
    CompareTextOrder(x + restX, y + restY, y + restY);
    if Value(x) < Value(y) {
      NumbersOrderedAlike(x, y, restX, restY);
    } else {
      NumbersOrderedAlike(y, x, restY, restX);
    }
  }

  /******* Labels *******/

  lemma {:induction false} JoinedIdentifiers(s: string)
    ensures Joined(Identifiers(s)) == s
  {
    if s != [] {
      var rest := Identifiers(s[1..]);
      JoinedIdentifiers(s[1..]);
      assert s == [s[0]] + s[1..];
      if s[0] == '.' {
        assert ([[]] + rest)[1..] == rest;
        assert [] + ("." + Joined(rest)) == "." + s[1..];
      } else {
        assert ([[s[0]] + rest[0]] + rest[1..])[1..] == rest[1..];
        assert ([s[0]] + rest[0]) + JoinedRest(rest[1..]) == [s[0]] + (rest[0] + JoinedRest(rest[1..]));
      }
    }
  }

  lemma RestEnds(ids: seq<string>)
    ensures IdentifierEnds(JoinedRest(ids)) && (JoinedRest(ids) != [] <==> ids != [])
  {
  }

  lemma RestsCompare(a: seq<string>, b: seq<string>)
    ensures CompareText(JoinedRest(a), JoinedRest(b)) ==
              if a == [] then (if b == [] then 0 else -1) else if b == [] then 1 else CompareText(Joined(a), Joined(b))
  {
    if a != [] && b != [] {
      CompareSameStart(".", Joined(a), Joined(b));
    }
  }

  lemma {:induction false} ListsAgreeIff(a: seq<string>, b: seq<string>)
    requires a != [] && b != [] && AllValid(a) && AllValid(b)
    ensures CompareText(Joined(a), Joined(b)) == CompareLists(a, b) <==> ListsAlike(a, b)
    decreases |a|
  {
    var restA, restB := JoinedRest(a[1..]), JoinedRest(b[1..]);
    RestEnds(a[1..]);
    RestEnds(b[1..]);
    if a[0] != b[0] {
      IdentifiersAgreeIff(a[0], b[0], restA, restB);
    } else {
      CompareSameStart(a[0], restA, restB);
      RestsCompare(a[1..], b[1..]);
      if a[1..] != [] && b[1..] != [] {
        ListsAgreeIff(a[1..], b[1..]);
      }
    }
  }

  /** The comparison of two versions is item 11's precedence if and only if they differ before their prerelease labels,
      or one is a release, or text order puts the first identifiers that differ as item 11 does: the smaller of two
      numbers is at most what as many leading digits of the larger make; where a number meets
      a word, the leading digits they both have decide for the number, or are equal and not followed by a hyphen in the
      word while the number's label goes on; and no identifier with more to follow is continued by a hyphen in the other
      word. */
  lemma ComparesAsItem11Iff(v: SkillVersion, w: SkillVersion)
    requires ValidVersion(v) && ValidVersion(w)
    ensures Compare(v, w) == PrecedenceOf(v, w) <==>
              (SameRelease(v, w) && v.prerelease != [] && w.prerelease != [] ==>
                ListsAlike(Identifiers(v.prerelease), Identifiers(w.prerelease)))
  {
    if SameRelease(v, w) && v.prerelease != [] && w.prerelease != [] {
      JoinedIdentifiers(v.prerelease);
      JoinedIdentifiers(w.prerelease);
      ListsAgreeIff(Identifiers(v.prerelease), Identifiers(w.prerelease));
    }
  }

  /** Item 11's precedence is antisymmetric, and ties only versions that differ at most in build metadata. */
  lemma PrecedenceTies(v: SkillVersion, w: SkillVersion)
    requires ValidVersion(v) && ValidVersion(w)
    ensures PrecedenceOf(v, w) == -PrecedenceOf(w, v)
    ensures PrecedenceOf(v, w) == 0 <==> v.(build := w.build) == w
  {
    if SameRelease(v, w) && v.prerelease != [] && w.prerelease != [] {
      ListTies(Identifiers(v.prerelease), Identifiers(w.prerelease));
      JoinedIdentifiers(v.prerelease);
      JoinedIdentifiers(w.prerelease);
    }
  }

  lemma {:induction false} ListTies(a: seq<string>, b: seq<string>)
    requires AllValid(a) && AllValid(b)
    ensures CompareLists(a, b) == -CompareLists(b, a)
    ensures CompareLists(a, b) == 0 <==> a == b
    decreases |a|
  {
    if a != [] && b != [] {
      if a[0] == b[0] {
        ListTies(a[1..], b[1..]);
        assert a == [a[0]] + a[1..] && b == [b[0]] + b[1..];
      } else {
        IdentifierTies(a[0], b[0]);
      }
    }
  }

  lemma IdentifierTies(x: string, y: string)
    requires ValidIdentifier(x) && ValidIdentifier(y) && x != y
    ensures CompareIdentifiers(x, y) == -CompareIdentifiers(y, x) && CompareIdentifiers(x, y) != 0
  {
    CompareTextOrder(x, y, y);
    if IsNumeric(x) && IsNumeric(y) {
      PrintOfValue(x);
      PrintOfValue(y);
      assert Value(x) != Value(y);
    }
  }

  /******* Examples *******/

  /** Item 11 asks that numeric identifiers be compared as numbers, but labels are compared as text. Of two prereleases
      whose first different identifiers are the numbers m < n, the first comes before the second if and only if m is at
      most the number that the leading digits of n make, as many as m has. */
  lemma NumericIdentifiersOrderedIff(v: SkillVersion, w: SkillVersion, stem: string, m: nat, n: nat, restM: string,
                                     restN: string)
    requires m < n && IdentifierEnds(restM) && IdentifierEnds(restN)
    requires v.prerelease == stem + (Print(m) + restM)
    requires w == v.(prerelease := stem + (Print(n) + restN), build := w.build)
    ensures |Print(m)| <= |Print(n)| && AllDigits(Print(n)[..|Print(m)|])
    ensures Lt(v, w) <==> m <= Value(Print(n)[..|Print(m)|])
  {
    PrintIsCanonical(m);
    PrintIsCanonical(n);
    SmallerNotLonger(Print(m), Print(n));
    NumbersInText(stem, Print(m), Print(n), restM, restN);
  }

  /** For instance, whatever the stem, identifier 10 comes before identifier 2. */
  lemma TenComesBeforeTwo(v: SkillVersion, stem: string)
    requires v.prerelease == stem + "2"
    ensures Lt(v.(prerelease := stem + "10"), v)
  {
    CompareSameStart(stem, "10", "2");
  }

  /** Words fail too: for every word x, x-y comes before x.z as text, and after it by item 11. */
  lemma HyphenComesBeforeDot(v: SkillVersion, x: string, y: string, z: string)
    requires v.prerelease == x + ("." + z)
    ensures Lt(v.(prerelease := x + ("-" + y)), v)
  {
    CompareSameStart(x, "-" + y, "." + z);
  }
}
