/** Parsing, printing and comparing skill versions (Semantic Versioning 2.0.0, items 2, 9, 10 and 11). */
module SemVer {
  import opened Prelude
  import opened Whitespace
  import opened Decimal

  datatype SkillVersion = SkillVersion(major: nat, minor: nat, patch: nat, prerelease: string, build: string)

  predicate IsLabelChar(c: char) {
    '0' <= c <= '9' || 'A' <= c <= 'Z' || 'a' <= c <= 'z' || c == '-' || c == '.'
  }

  predicate IsLabel(s: string) {
    s != [] && forall i :: 0 <= i < |s| ==> IsLabelChar(s[i])
  }

  /** Versions whose labels are absent or made of label characters. */
  predicate WellFormed(v: SkillVersion) {
    (v.prerelease == [] || IsLabel(v.prerelease)) && (v.build == [] || IsLabel(v.build))
  }

  /******* Printing *******/

  function PrintVersion(v: SkillVersion): string {
    Print(v.major) + ("." + (Print(v.minor) + ("." + (Print(v.patch) + PrintTail(v.prerelease, v.build)))))
  }

  function PrintTail(prerelease: string, build: string): string {
    (if prerelease != [] then "-" + prerelease else []) + PrintBuild(build)
  }

  function PrintBuild(build: string): string {
    if build != [] then "+" + build else []
  }

  /******* Parsing *******/

  function DigitRun(s: string): (n: nat)
    ensures n <= |s| && AllDigits(s[..n]) && (n < |s| ==> !IsDigit(s[n]))
  {
    if s == [] || !IsDigit(s[0]) then 0
    else
      assert forall n :: 0 <= n <= |s| - 1 ==> s[..n + 1] == [s[0]] + s[1..][..n];
      1 + DigitRun(s[1..])
  }

  function LabelRun(s: string): (n: nat)
    ensures n <= |s| && (forall i :: 0 <= i < n ==> IsLabelChar(s[i])) && (n < |s| ==> !IsLabelChar(s[n]))
  {
    if s == [] || !IsLabelChar(s[0]) then 0 else 1 + LabelRun(s[1..])
  }

  /** A number without needless zeros, and what follows it. */
  function Number(s: string): Option<(string, string)> {
    var n := DigitRun(s);
    if Canonical(s[..n]) then Some((s[..n], s[n..])) else None
  }

  function NumberAndDot(s: string): Option<(string, string)> {
    match Number(s)
    case None => None
    case Some((digits, rest)) => if rest != [] && rest[0] == '.' then Some((digits, rest[1..])) else None
  }

  function Label(s: string): Option<(string, string)> {
    var n := LabelRun(s);
    if n > 0 then Some((s[..n], s[n..])) else None
  }

  /** Build metadata up to the end of the text; the empty label stands for none. */
  function BuildTail(s: string): Option<string> {
    if s == [] then Some([])
    else if s[0] != '+' then None
    else
      match Label(s[1..])
      case None => None
      case Some((text, rest)) => if rest == [] then Some(text) else None
  }

  function Tail(s: string): Option<(string, string)> {
    if s != [] && s[0] == '-' then
      match Label(s[1..])
      case None => None
      case Some((text, rest)) => match BuildTail(rest) case None => None case Some(build) => Some((text, build))
    else
      match BuildTail(s) case None => None case Some(build) => Some(([], build))
  }

  function ParseStripped(s: string): Option<SkillVersion> {
    match NumberAndDot(s)
    case None => None
    case Some((major, afterMajor)) =>
      match NumberAndDot(afterMajor)
      case None => None
      case Some((minor, afterMinor)) =>
        match Number(afterMinor)
        case None => None
        case Some((patch, afterPatch)) =>
          match Tail(afterPatch)
          case None => None
          case Some((prerelease, build)) =>
            NumberParts(s);
            NumberParts(afterMajor);
            NumberParts(afterMinor);
            Some(SkillVersion(Value(major), Value(minor), Value(patch), prerelease, build))
  }

  /** None where the source raises ValueError. */
  function Parse(s: string): Option<SkillVersion> {
    ParseStripped(Strip(s))
  }

  /******* The scanner reads what the printer writes *******/

  lemma NumberParts(s: string)
    ensures Number(s).Some? ==> Canonical(Number(s).value.0) && s == Number(s).value.0 + Number(s).value.1
  {
  }

  lemma {:induction false} DigitRunOf(digits: string, rest: string)
    requires AllDigits(digits) && (rest == [] || !IsDigit(rest[0]))
    ensures DigitRun(digits + rest) == |digits|
  {
    if digits == [] {
      assert digits + rest == rest;
    } else {
      assert (digits + rest)[1..] == digits[1..] + rest;
      DigitRunOf(digits[1..], rest);
    }
  }

  lemma {:induction false} LabelRunOf(text: string, rest: string)
    requires (forall i :: 0 <= i < |text| ==> IsLabelChar(text[i])) && (rest == [] || !IsLabelChar(rest[0]))
    ensures LabelRun(text + rest) == |text|
  {
    if text == [] {
      assert text + rest == rest;
    } else {
      assert (text + rest)[1..] == text[1..] + rest;
      LabelRunOf(text[1..], rest);
    }
  }

  lemma NumberOf(digits: string, rest: string)
    requires Canonical(digits) && (rest == [] || !IsDigit(rest[0]))
    ensures Number(digits + rest) == Some((digits, rest))
  {
    DigitRunOf(digits, rest);
    assert (digits + rest)[..|digits|] == digits && (digits + rest)[|digits|..] == rest;
  }

  lemma NumberAndDotOf(digits: string, rest: string)
    requires Canonical(digits)
    ensures NumberAndDot(digits + ("." + rest)) == Some((digits, rest))
  {
    NumberOf(digits, "." + rest);
    assert ("." + rest)[1..] == rest;
  }

  lemma LabelOf(text: string, rest: string)
    requires IsLabel(text) && (rest == [] || !IsLabelChar(rest[0]))
    ensures Label(text + rest) == Some((text, rest))
  {
    LabelRunOf(text, rest);
    assert (text + rest)[..|text|] == text && (text + rest)[|text|..] == rest;
  }

  lemma BuildTailOf(build: string)
    requires build == [] || IsLabel(build)
    ensures BuildTail(PrintBuild(build)) == Some(build)
  {
    if build != [] {
      LabelOf(build, []);
      assert build + [] == build && ("+" + build)[1..] == build;
    }
  }

  lemma TailOfPrerelease(prerelease: string, end: string, build: string)
    requires IsLabel(prerelease) && (end == [] || !IsLabelChar(end[0])) && BuildTail(end) == Some(build)
    ensures Tail(("-" + prerelease) + end) == Some((prerelease, build))
  {
    var s := ("-" + prerelease) + end;
    assert s[0] == '-' && s[1..] == prerelease + end;
    LabelOf(prerelease, end);
  }

  lemma TailOf(prerelease: string, build: string)
    requires (prerelease == [] || IsLabel(prerelease)) && (build == [] || IsLabel(build))
    ensures Tail(PrintTail(prerelease, build)) == Some((prerelease, build))
  {
    BuildTailOf(build);
    if prerelease == [] {
      assert [] + PrintBuild(build) == PrintBuild(build);
    } else {
      TailOfPrerelease(prerelease, PrintBuild(build), build);
    }
  }

  /** The characters of labels by their code points: digits, letters of both cases, hyphen and dot. */
  lemma LabelCharIff(c: char)
    ensures IsLabelChar(c) <==>
            48 <= c as int <= 57 || 65 <= c as int <= 90 || 97 <= c as int <= 122 || c as int == 45 || c as int == 46
  {
  }

  /******* What the scanner accepts, the printer writes *******/

  lemma LabelParts(s: string)
    requires Label(s).Some?
    ensures
      var (text, rest) := Label(s).value;
      IsLabel(text) && s == text + rest
  {
  }

  lemma BuildTailParts(s: string)
    requires BuildTail(s).Some?
    ensures
      var build := BuildTail(s).value;
      (build == [] || IsLabel(build)) && s == PrintBuild(build)
  {
    if s != [] {
      LabelParts(s[1..]);
      var (text, rest) := Label(s[1..]).value;
      assert text + [] == text;
      assert s == "+" + s[1..];
    }
  }

  lemma TailParts(s: string)
    requires Tail(s).Some?
    ensures
      var (prerelease, build) := Tail(s).value;
      (prerelease == [] || IsLabel(prerelease)) && (build == [] || IsLabel(build)) && s == PrintTail(prerelease, build)
  {
    if s != [] && s[0] == '-' {
      var (text, rest) := Label(s[1..]).value;
      LabelParts(s[1..]);
      BuildTailParts(rest);
      assert s == "-" + (text + rest);
      Regrouped("-", text, rest);
    } else {
      BuildTailParts(s);
      assert [] + s == s;
    }
  }

  lemma NumberAndDotParts(s: string)
    requires NumberAndDot(s).Some?
    ensures
      var (digits, rest) := NumberAndDot(s).value;
      Number(s).Some? && Number(s).value.0 == digits && Canonical(digits) && s == digits + ("." + rest)
  {
    NumberParts(s);
    var rest := Number(s).value.1;
    assert rest == "." + rest[1..];
  }

  /******* Round trips *******/

  /** What follows the second dot does not end in white space. */
  lemma EndNotSpace(patch: nat, prerelease: string, build: string)
    requires (prerelease == [] || IsLabel(prerelease)) && (build == [] || IsLabel(build))
    ensures var end := Print(patch) + PrintTail(prerelease, build); end != [] && !IsSpace(Last(end))
  {
    PrintIsCanonical(patch);
    var digits, tail := Print(patch), PrintTail(prerelease, build);
    if tail == [] {
      assert digits + tail == digits;
    } else {
      assert Last(digits + tail) == Last(tail);
      assert Last(tail) == if build != [] then Last(build) else Last(prerelease);
    }
  }

  lemma NothingToStrip(start: string, end: string)
    requires start != [] && end != [] && !IsSpace(start[0]) && !IsSpace(Last(end))
    ensures Strip(start + end) == start + end
  {
    assert (start + end)[0] == start[0] && Last(start + end) == Last(end);
  }

  lemma PrintedEnds(v: SkillVersion)
    requires WellFormed(v)
    ensures Strip(PrintVersion(v)) == PrintVersion(v)
  {
    PrintIsCanonical(v.major);
    EndNotSpace(v.patch, v.prerelease, v.build);
    var end := Print(v.patch) + PrintTail(v.prerelease, v.build);
    var start := Print(v.major) + ("." + (Print(v.minor) + "."));
    Regrouped(Print(v.minor), ".", end);
    Regrouped(".", Print(v.minor) + ".", end);
    Regrouped(Print(v.major), "." + (Print(v.minor) + "."), end);
    assert start[0] == Print(v.major)[0];
    NothingToStrip(start, end);
  }

  lemma ParsePrinted(v: SkillVersion)
    requires WellFormed(v)
    ensures ParseStripped(PrintVersion(v)) == Some(v)
  {
    PrintIsCanonical(v.major);
    PrintIsCanonical(v.minor);
    PrintIsCanonical(v.patch);
    var tail := PrintTail(v.prerelease, v.build);
    TailOf(v.prerelease, v.build);
    NumberOf(Print(v.patch), tail);
    NumberAndDotOf(Print(v.minor), Print(v.patch) + tail);
    NumberAndDotOf(Print(v.major), Print(v.minor) + ("." + (Print(v.patch) + tail)));
  }

  /** Whatever the parser accepts is the printed form of the version it returns, which is well formed. */
  lemma PrintParsed(s: string, v: SkillVersion)
    ensures ParseStripped(s) == Some(v) ==> WellFormed(v) && PrintVersion(v) == s
  {
    if ParseStripped(s) == Some(v) {
      NumberAndDotParts(s);
      var (major, afterMajor) := NumberAndDot(s).value;
      NumberAndDotParts(afterMajor);
      var (minor, afterMinor) := NumberAndDot(afterMajor).value;
      NumberParts(afterMinor);
      var (patch, afterPatch) := Number(afterMinor).value;
      TailParts(afterPatch);
      PrintOfValue(major);
      PrintOfValue(minor);
      PrintOfValue(patch);
    }
  }

  /** Parsing a printed version gives it back exactly when its labels are well formed. */
  lemma ParseOfPrintIff(v: SkillVersion)
    ensures Parse(PrintVersion(v)) == Some(v) <==> WellFormed(v)
  {
    if WellFormed(v) {
      PrintedEnds(v);
      ParsePrinted(v);
    }
    if Parse(PrintVersion(v)) == Some(v) {
      PrintParsed(Strip(PrintVersion(v)), v);
    }
  }

  /** A text parses to a version exactly when it is that version printed, up to surrounding white space, and the
      version is well formed: so nothing else is accepted, and one text never has two readings. */
  lemma ParsesIff(s: string, v: SkillVersion)
    ensures Parse(s) == Some(v) <==> WellFormed(v) && PrintVersion(v) == Strip(s)
  {
    if Parse(s) == Some(v) {
      PrintParsed(Strip(s), v);
    }
    if WellFormed(v) && PrintVersion(v) == Strip(s) {
      ParsePrinted(v);
    }
  }

  /** Different well-formed versions print differently. */
  lemma PrintIsInjective(v: SkillVersion, w: SkillVersion)
    requires WellFormed(v) && WellFormed(w) && PrintVersion(v) == PrintVersion(w)
    ensures v == w
  {
    ParsePrinted(v);
    ParsePrinted(w);
  }

  /******* The grammar, independently *******/

  /** The three numbers and the two optional labels of the regular expression's groups. */
  datatype Groups = Groups(major: string, minor: string, patch: string, pre: Option<string>, build: Option<string>)

  predicate Denotes(s: string, g: Groups) {
    && Canonical(g.major) && Canonical(g.minor) && Canonical(g.patch)
    && (g.pre.Some? ==> IsLabel(g.pre.value)) && (g.build.Some? ==> IsLabel(g.build.value))
    && s == g.major + ("." + (g.minor + ("." + (g.patch +
            ((if g.pre.Some? then "-" + g.pre.value else []) + (if g.build.Some? then "+" + g.build.value else []))))))
  }

  function VersionOf(g: Groups): SkillVersion
    requires Canonical(g.major) && Canonical(g.minor) && Canonical(g.patch)
  {
    SkillVersion(Value(g.major), Value(g.minor), Value(g.patch),
                 if g.pre.Some? then g.pre.value else [], if g.build.Some? then g.build.value else [])
  }

  function OptionalLabel(s: string): Option<string> {
    if s == [] then None else Some(s)
  }

  lemma DenotedIsPrinted(s: string, g: Groups)
    requires Denotes(s, g)
    ensures WellFormed(VersionOf(g)) && PrintVersion(VersionOf(g)) == s
  {
    PrintOfValue(g.major);
    PrintOfValue(g.minor);
    PrintOfValue(g.patch);
  }

  /** The scanner accepts exactly the regular expression's language and returns what its groups say. */
  lemma ParsesIffMatches(s: string, v: SkillVersion)
    ensures Parse(s) == Some(v) <==> exists g :: Denotes(Strip(s), g) && VersionOf(g) == v
  {
    if Parse(s) == Some(v) {
      ParsesIff(s, v);
      PrintIsCanonical(v.major);
      PrintIsCanonical(v.minor);
      PrintIsCanonical(v.patch);
      var g := Groups(Print(v.major), Print(v.minor), Print(v.patch), OptionalLabel(v.prerelease),
                      OptionalLabel(v.build));
      assert Denotes(Strip(s), g) && VersionOf(g) == v;
    }
    if g :| Denotes(Strip(s), g) && VersionOf(g) == v {
      DenotedIsPrinted(Strip(s), g);
      ParsesIff(s, v);
    }
  }

  /******* Comparison *******/

  /** The sign of the comparison of two texts, character by character. */
  function CompareText(a: string, b: string): (c: int)
    ensures -1 <= c <= 1
  {
    if a == [] then (if b == [] then 0 else -1)
    else if b == [] then 1
    else if a[0] != b[0] then (if a[0] < b[0] then -1 else 1)
    else CompareText(a[1..], b[1..])
  }

  function CompareNumber(a: int, b: int): int {
    if a < b then -1 else if a > b then 1 else 0
  }

  function ReleaseRank(v: SkillVersion): int {
    if v.prerelease == [] then 1 else 0
  }

  /** The comparison of the tuples (major, minor, patch, is a release, prerelease): the first difference decides. */
  function Compare(v: SkillVersion, w: SkillVersion): int {
    if v.major != w.major then CompareNumber(v.major, w.major)
    else if v.minor != w.minor then CompareNumber(v.minor, w.minor)
    else if v.patch != w.patch then CompareNumber(v.patch, w.patch)
    else if ReleaseRank(v) != ReleaseRank(w) then CompareNumber(ReleaseRank(v), ReleaseRank(w))
    else CompareText(v.prerelease, w.prerelease)
  }

  predicate Lt(v: SkillVersion, w: SkillVersion) {
    Compare(v, w) < 0
  }

  predicate Le(v: SkillVersion, w: SkillVersion) {
    Compare(v, w) <= 0
  }

  predicate Gt(v: SkillVersion, w: SkillVersion) {
    Compare(v, w) > 0
  }

  predicate Ge(v: SkillVersion, w: SkillVersion) {
    Compare(v, w) >= 0
  }

  /** a and b agree on n characters, and then a ends or goes on with the smaller character. */
  predicate SmallerAfter(a: string, b: string, n: nat) {
    n <= |a| && n < |b| && a[..n] == b[..n] && (n == |a| || a[n] < b[n])
  }

  /** The comparison is the lexicographic one: decided by the first difference, a proper prefix being smaller. */
  lemma {:induction false} SmallerIff(a: string, b: string)
    ensures CompareText(a, b) < 0 <==> exists n :: SmallerAfter(a, b, n)
  {
    if a != [] && b != [] {
      forall n: nat | n > 0 && SmallerAfter(a, b, n)
        ensures a[0] == b[0] && SmallerAfter(a[1..], b[1..], n - 1)
      {
        assert a[..n][0] == a[0] && b[..n][0] == b[0];
        assert a[1..][..n - 1] == a[..n][1..] && b[1..][..n - 1] == b[..n][1..];
      }
      assert a[0] < b[0] ==> SmallerAfter(a, b, 0);
      if a[0] == b[0] {
        SmallerIff(a[1..], b[1..]);
        if n: nat :| SmallerAfter(a[1..], b[1..], n) {
          assert a[..n + 1] == [a[0]] + a[1..][..n] && b[..n + 1] == [b[0]] + b[1..][..n];
          assert SmallerAfter(a, b, n + 1);
        }
      }
    } else if b != [] {
      assert SmallerAfter(a, b, 0);
    }
  }

  lemma {:induction false} CompareTextOrder(a: string, b: string, c: string)
    ensures CompareText(a, b) == -CompareText(b, a)
    ensures CompareText(a, b) == 0 <==> a == b
    ensures CompareText(a, b) <= 0 && CompareText(b, c) <= 0 ==> CompareText(a, c) <= 0
  {
    if a != [] && b != [] && a[0] == b[0] {
      CompareTextOrder(a[1..], b[1..], if c == [] then [] else c[1..]);
      assert a == [a[0]] + a[1..] && b == [b[0]] + b[1..];
    }
  }

  /** The comparisons form a total preorder, and < is its strict part. */
  lemma TotalPreorder(u: SkillVersion, v: SkillVersion, w: SkillVersion)
    ensures Le(v, v)
    ensures Le(v, w) || Le(w, v)
    ensures Le(u, v) && Le(v, w) ==> Le(u, w)
    ensures Lt(v, w) <==> !Le(w, v)
    ensures Gt(v, w) <==> Lt(w, v)
    ensures Ge(v, w) <==> Le(w, v)
  {
    CompareTextOrder(v.prerelease, w.prerelease, w.prerelease);
    CompareTextOrder(v.prerelease, v.prerelease, v.prerelease);
    CompareTextOrder(u.prerelease, v.prerelease, w.prerelease);
  }

  /** Which of two versions is the smaller: by major, minor and patch number, then a prerelease before its release, then
      the prerelease label that is a beginning of the other or has the smaller character where they first differ. */
  lemma SmallerVersionIff(v: SkillVersion, w: SkillVersion)
    ensures Lt(v, w) <==>
            || v.major < w.major
            || (v.major == w.major && v.minor < w.minor)
            || (v.major == w.major && v.minor == w.minor && v.patch < w.patch)
            || (v.major == w.major && v.minor == w.minor && v.patch == w.patch && v.prerelease != [] &&
                (w.prerelease == [] || exists n :: SmallerAfter(v.prerelease, w.prerelease, n)))
  {
    SmallerIff(v.prerelease, w.prerelease);
  }

  /** Two versions tie exactly when they differ at most in build metadata. */
  lemma TiesDifferInBuildOnly(v: SkillVersion, w: SkillVersion)
    ensures Le(v, w) && Le(w, v) <==> v.(build := w.build) == w
  {
    CompareTextOrder(v.prerelease, w.prerelease, w.prerelease);
  }

  lemma {:induction false} CompareSameStart(stem: string, a: string, b: string)
    ensures CompareText(stem + a, stem + b) == CompareText(a, b)
  {
    if stem == [] {
      assert stem + a == a && stem + b == b;
    } else {
      assert (stem + a)[1..] == stem[1..] + a && (stem + b)[1..] == stem[1..] + b;
      CompareSameStart(stem[1..], a, b);
    }
  }
}
