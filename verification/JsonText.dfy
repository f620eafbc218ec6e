/** JSON as json.dumps writes it: ASCII only, and no white space between the parts. */
module JsonText {
  import opened Prelude
  import opened JsonRepair

  /******* Writing *******/

  predicate NumeralChar(c: char) {
    '0' <= c <= '9' || 'a' <= c <= 'z' || 'A' <= c <= 'Z' || c == '+' || c == '-' || c == '.'
  }

  predicate IsNumeral(s: string) {
    s != [] && ('0' <= s[0] <= '9' || s[0] == '-' || s[0] == 'N' || s[0] == 'I') &&
    forall i :: 0 <= i < |s| ==> NumeralChar(s[i])
  }

  /** What json.dumps writes for a number, NaN and the infinities included. */
  type Numeral = s: string | IsNumeral(s) witness "0"

  datatype Json =
    | Null
    | Boolean(value: bool)
    | Number(numeral: Numeral)
    | Text(content: string)
    | Array(items: Items)
    | Object(members: Members)

  datatype Items = NoItem | Item(first: Json, rest: Items)

  /** The members of a mapping, in the order in which they are written. */
  datatype Members = NoMember | Member(key: string, value: Json, rest: Members)

  function HexDigit(n: nat): (c: char)
    requires n < 16
    ensures NumeralChar(c) && c as int == if n < 10 then 48 + n else 87 + n
  {
    if n < 10 then '0' + n as char else 'a' + (n - 10) as char
  }

  function Hex4(n: nat): string
    requires n < 0x1_0000
  {
    [HexDigit(n / 16 / 16 / 16), HexDigit(n / 16 / 16 % 16), HexDigit(n / 16 % 16), HexDigit(n % 16)]
  }

  /** The character after the backslash. */
  function ShortEscape(c: char): (e: Option<char>)
    ensures e != Some('u')
  {
    if c == '"' || c == '\\' then Some(c)
    else if c == '\n' then Some('n')
    else if c == '\r' then Some('r')
    else if c == '\t' then Some('t')
    else if c == '\U{08}' then Some('b')
    else if c == '\U{0C}' then Some('f')
    else None
  }

  /** The UTF-16 code units of a character. */
  function Units(c: char): (u: seq<nat>)
    ensures 1 <= |u| <= 2 && forall i :: 0 <= i < |u| ==> u[i] < 0x1_0000
  {
    var n := c as int;
    if n < 0x1_0000 then [n] else [0xD800 + (n - 0x1_0000) / 0x400, 0xDC00 + (n - 0x1_0000) % 0x400]
  }

  function UnitEscape(n: nat): (e: string)
    requires n < 0x1_0000
    ensures |e| == 6 && e[0] == '\\' && e[1] == 'u'
  {
    "\\u" + Hex4(n)
  }

  function Escape(c: char): (e: string)
    ensures e != [] && e[0] != '"'
    ensures e[0] != '\\' ==> e == [c]
    ensures e[0] == '\\' ==> |e| > 1 && (e[1] == 'u' <==> ShortEscape(c).None?)
  {
    if ShortEscape(c).Some? then ['\\', ShortEscape(c).value]
    else if ' ' <= c <= '~' then [c]
    else if |Units(c)| == 1 then UnitEscape(Units(c)[0])
    else UnitEscape(Units(c)[0]) + UnitEscape(Units(c)[1])
  }

  /** The seven short escapes; other printable ASCII stands for itself. */
  lemma EscapesAre(c: char)
    ensures Escape('"') == "\\\"" && Escape('\\') == "\\\\" && Escape('\n') == "\\n" && Escape('\r') == "\\r"
    ensures Escape('\t') == "\\t" && Escape('\U{08}') == "\\b" && Escape('\U{0C}') == "\\f"
    ensures 32 <= c as int < 127 && c != '"' && c != '\\' ==> Escape(c) == [c]
    ensures c as int < 32 && c !in "\n\r\t" && c as int != 8 && c as int != 12 ==> Escape(c) == UnitEscape(c as int)
    ensures 127 <= c as int < 0x1_0000 ==> Escape(c) == UnitEscape(c as int)
  {
    assert c == '\n' ==> c in "\n\r\t" by {
      assert "\n\r\t"[0] == '\n';
    }
    assert "\n\r\t"[1] == '\r' && "\n\r\t"[2] == '\t';
  }

  /** Characters beyond the basic plane are written as the surrogate pair that UTF-16 gives them. */
  lemma UnitsAreUtf16(c: char)
    ensures c as int < 0x1_0000 ==> Units(c) == [c as int]
    ensures c as int >= 0x1_0000 ==>
              && |Units(c)| == 2 && 0xD800 <= Units(c)[0] < 0xDC00 <= Units(c)[1] < 0xE000
              && c as int == 0x1_0000 + (Units(c)[0] - 0xD800) * 0x400 + (Units(c)[1] - 0xDC00)
  {
  }

  /** What follows a string's opening quote. */
  function StringText(s: string): string {
    if s == [] then "\"" else Escape(s[0]) + StringText(s[1..])
  }

  function Dumped(v: Json): string {
    match v
    case Null => "null"
    case Boolean(value) => if value then "true" else "false"
    case Number(numeral) => numeral
    case Text(content) => "\"" + StringText(content)
    case Array(items) => "[" + ItemsText(items)
    case Object(members) => "{" + MembersText(members)
  }

  function Separated(last: bool, text: string): string {
    if last then text else "," + text
  }

  function ItemsText(items: Items): string {
    match items
    case NoItem => "]"
    case Item(first, rest) => Dumped(first) + Separated(rest.NoItem?, ItemsText(rest))
  }

  function MembersText(members: Members): string
    decreases members, 1
  {
    if members.NoMember? then "}" else "\"" + (StringText(members.key) + AfterKey(members))
  }

  /** What follows the first member's key. */
  function AfterKey(members: Members): string
    requires members.Member?
    decreases members, 0
  {
    ":" + (Dumped(members.value) + Separated(members.rest.NoMember?, MembersText(members.rest)))
  }

  function DumpedMapping(members: Members): string {
    Dumped(Object(members))
  }

  /******* Unique reading *******/

  lemma HexUnique(n: nat, m: nat)
    requires n < 0x1_0000 && m < 0x1_0000 && Hex4(n) == Hex4(m)
    ensures n == m
  {
    var a, b := Hex4(n), Hex4(m);
    assert a[0] == b[0] && a[1] == b[1] && a[2] == b[2] && a[3] == b[3];
    assert n / 16 / 16 / 16 == m / 16 / 16 / 16;
    assert n / 16 / 16 == m / 16 / 16;
    assert n / 16 == m / 16;
  }

  lemma UnitUnique(n: nat, x: string, m: nat, y: string)
    requires n < 0x1_0000 && m < 0x1_0000 && UnitEscape(n) + x == UnitEscape(m) + y
    ensures n == m && x == y
  {
    SameCut(UnitEscape(n), x, UnitEscape(m), y);
    SameCut("\\u", Hex4(n), "\\u", Hex4(m));
    HexUnique(n, m);
  }

  lemma UnitsUnique(c: char, d: char)
    ensures Units(c)[0] == Units(d)[0] ==> |Units(c)| == |Units(d)|
    ensures Units(c) == Units(d) ==> c == d
  {
  }

  lemma ShortUnique(c: char, d: char)
    requires ShortEscape(c).Some? && ShortEscape(c) == ShortEscape(d)
    ensures c == d
  {
  }

  /** What follows the escape of a character's first unit. */
  function AfterUnit(c: char, x: string): string {
    if |Units(c)| == 1 then x else UnitEscape(Units(c)[1]) + x
  }

  lemma LongText(c: char, x: string)
    requires Escape(c)[0] == '\\' && ShortEscape(c).None?
    ensures Escape(c) + x == UnitEscape(Units(c)[0]) + AfterUnit(c, x)
  {
    if |Units(c)| == 2 {
      Regrouped(UnitEscape(Units(c)[0]), UnitEscape(Units(c)[1]), x);
    }
  }

  lemma LongUnique(c: char, x: string, d: char, y: string)
    requires Escape(c)[0] == '\\' == Escape(d)[0] && ShortEscape(c).None? && ShortEscape(d).None?
    requires Escape(c) + x == Escape(d) + y
    ensures c == d && x == y
  {
    LongText(c, x);
    LongText(d, y);
    UnitUnique(Units(c)[0], AfterUnit(c, x), Units(d)[0], AfterUnit(d, y));
    UnitsUnique(c, d);
    if |Units(c)| == 2 {
      UnitUnique(Units(c)[1], x, Units(d)[1], y);
    }
  }

  lemma EscapeUnique(c: char, x: string, d: char, y: string)
    requires Escape(c) + x == Escape(d) + y
    ensures c == d && x == y
  {
    var e, f := Escape(c), Escape(d);
    assert e[0] == (e + x)[0] == (f + y)[0] == f[0];
    if e[0] != '\\' {
      SameCut(e, x, f, y);
    } else {
      assert e[1] == (e + x)[1] == (f + y)[1] == f[1];
      if ShortEscape(c).Some? {
        SameCut(e, x, f, y);
        ShortUnique(c, d);
      } else {
        LongUnique(c, x, d, y);
      }
    }
  }

  lemma StringFirst(s: string, x: string)
    ensures StringText(s) != [] && (StringText(s) + x)[0] == StringText(s)[0]
    ensures StringText(s)[0] == '"' <==> s == []
  {
  }

  lemma {:induction false} StringUnique(s: string, x: string, t: string, y: string)
    requires StringText(s) + x == StringText(t) + y
    ensures s == t && x == y
  {
    StringFirst(s, x);
    StringFirst(t, y);
    if s == [] {
      SameCut("\"", x, "\"", y);
    } else {
      var restS, restT := StringText(s[1..]) + x, StringText(t[1..]) + y;
      Regrouped(Escape(s[0]), StringText(s[1..]), x);
      Regrouped(Escape(t[0]), StringText(t[1..]), y);
      EscapeUnique(s[0], restS, t[0], restT);
      StringUnique(s[1..], x, t[1..], y);
      assert s == [s[0]] + s[1..] && t == [t[0]] + t[1..];
    }
  }

  /** What can follow a value: nothing, or a character that no number contains. */
  ghost predicate Ends(x: string) {
    x != [] ==> !NumeralChar(x[0])
  }

  lemma NumeralFits(a: Numeral, x: string, b: string, y: string)
    requires Ends(y) && a + x == b + y
    ensures |a| <= |b|
  {
    var whole := a + x;
    assert y != [] ==> whole[|b|] == y[0];
    assert forall i :: 0 <= i < |a| ==> NumeralChar(whole[i]);
  }

  lemma NumeralUnique(a: Numeral, x: string, b: Numeral, y: string)
    requires Ends(x) && Ends(y) && a + x == b + y
    ensures a == b && x == y
  {
    NumeralFits(a, x, b, y);
    NumeralFits(b, y, a, x);
    SameCut(a, x, b, y);
  }

  /** What a value's first character says about its kind. */
  function Opening(v: Json): char {
    match v
    case Null => 'n'
    case Boolean(value) => if value then 't' else 'f'
    case Number(numeral) => numeral[0]
    case Text(_) => '"'
    case Array(_) => '['
    case Object(_) => '{'
  }

  lemma OpeningIsFirst(v: Json, x: string)
    ensures Dumped(v) != [] && (Dumped(v) + x)[0] == Dumped(v)[0] == Opening(v)
  {
  }

  lemma ItemsFirst(items: Items, x: string)
    ensures ItemsText(items) != [] && (ItemsText(items) + x)[0] == ItemsText(items)[0]
    ensures ItemsText(items)[0] != ',' && (ItemsText(items)[0] == ']' <==> items.NoItem?)
  {
    if items.Item? {
      OpeningIsFirst(items.first, []);
    }
  }

  lemma MembersFirst(members: Members, x: string)
    ensures MembersText(members) != [] && (MembersText(members) + x)[0] == MembersText(members)[0]
    ensures MembersText(members)[0] == if members.NoMember? then '}' else '"'
  {
  }

  /** Reading a value off the front of a text gives one value and one rest. */
  lemma {:induction false} DumpedUnique(v: Json, x: string, w: Json, y: string)
    requires Ends(x) && Ends(y) && Dumped(v) + x == Dumped(w) + y
    ensures v == w && x == y
    decreases v
  {
    OpeningIsFirst(v, x);
    OpeningIsFirst(w, y);
    match v
    case Null =>
      SameCut(Dumped(v), x, Dumped(w), y);
    case Boolean(value) =>
      SameCut(Dumped(v), x, Dumped(w), y);
    case Number(numeral) =>
      NumeralUnique(numeral, x, w.numeral, y);
    case Text(content) =>
      Behind('"', StringText(content), x, StringText(w.content), y);
      StringUnique(content, x, w.content, y);
    case Array(items) =>
      Behind('[', ItemsText(items), x, ItemsText(w.items), y);
      ItemsUnique(items, x, w.items, y);
    case Object(members) =>
      Behind('{', MembersText(members), x, MembersText(w.members), y);
      MembersUnique(members, x, w.members, y);
  }

  lemma Behind(c: char, a: string, x: string, b: string, y: string)
    requires ([c] + a) + x == ([c] + b) + y
    ensures a + x == b + y
  {
    assert ([c] + a) + x == [c] + (a + x) && ([c] + b) + y == [c] + (b + y);
    SameCut([c], a + x, [c], b + y);
  }

  lemma SeparatorUnique(lastA: bool, x: string, lastB: bool, y: string)
    requires Separated(lastA, x) == Separated(lastB, y)
    requires x != [] && x[0] != ',' && y != [] && y[0] != ','
    ensures lastA == lastB && x == y
  {
    assert Separated(lastA, x)[0] == Separated(lastB, y)[0];
    if !lastA {
      SameCut(",", x, ",", y);
    }
  }

  lemma SeparatedConcat(last: bool, text: string, x: string)
    ensures Separated(last, text) + x == Separated(last, text + x)
  {
    assert "," + text + x == "," + (text + x);
  }

  lemma {:induction false} ItemsUnique(a: Items, x: string, b: Items, y: string)
    requires ItemsText(a) + x == ItemsText(b) + y
    ensures a == b && x == y
    decreases a
  {
    ItemsFirst(a, x);
    ItemsFirst(b, y);
    if a.NoItem? {
      SameCut("]", x, "]", y);
    } else {
      var restA, restB := ItemsText(a.rest) + x, ItemsText(b.rest) + y;
      ItemsFirst(a.rest, x);
      ItemsFirst(b.rest, y);
      SeparatedConcat(a.rest.NoItem?, ItemsText(a.rest), x);
      SeparatedConcat(b.rest.NoItem?, ItemsText(b.rest), y);
      Regrouped(Dumped(a.first), Separated(a.rest.NoItem?, ItemsText(a.rest)), x);
      Regrouped(Dumped(b.first), Separated(b.rest.NoItem?, ItemsText(b.rest)), y);
      DumpedUnique(a.first, Separated(a.rest.NoItem?, restA), b.first, Separated(b.rest.NoItem?, restB));
      SeparatorUnique(a.rest.NoItem?, restA, b.rest.NoItem?, restB);
      ItemsUnique(a.rest, x, b.rest, y);
    }
  }

  lemma {:induction false} MembersUnique(a: Members, x: string, b: Members, y: string)
    requires MembersText(a) + x == MembersText(b) + y
    ensures a == b && x == y
    decreases a, 1
  {
    MembersFirst(a, x);
    MembersFirst(b, y);
    if a.NoMember? {
      SameCut("}", x, "}", y);
    } else {
      var restA, restB := AfterKey(a), AfterKey(b);
      Behind('"', StringText(a.key) + restA, x, StringText(b.key) + restB, y);
      Regrouped(StringText(a.key), restA, x);
      Regrouped(StringText(b.key), restB, y);
      StringUnique(a.key, restA + x, b.key, restB + y);
      AfterKeyUnique(a, x, b, y);
    }
  }

  lemma {:induction false} AfterKeyUnique(a: Members, x: string, b: Members, y: string)
    requires a.Member? && b.Member? && AfterKey(a) + x == AfterKey(b) + y
    ensures a.value == b.value && a.rest == b.rest && x == y
    decreases a, 0
  {
    var textA, textB := MembersText(a.rest), MembersText(b.rest);
    var restA, restB := Separated(a.rest.NoMember?, textA), Separated(b.rest.NoMember?, textB);
    Behind(':', Dumped(a.value) + restA, x, Dumped(b.value) + restB, y);
    Regrouped(Dumped(a.value), restA, x);
    Regrouped(Dumped(b.value), restB, y);
    MembersFirst(a.rest, x);
    MembersFirst(b.rest, y);
    SeparatedConcat(a.rest.NoMember?, textA, x);
    SeparatedConcat(b.rest.NoMember?, textB, y);
    DumpedUnique(a.value, restA + x, b.value, restB + y);
    SeparatorUnique(a.rest.NoMember?, textA + x, b.rest.NoMember?, textB + y);
    MembersUnique(a.rest, x, b.rest, y);
  }

  /** Different mappings are written differently. */
  lemma MappingUnique(a: Members, b: Members)
    ensures DumpedMapping(a) == DumpedMapping(b) <==> a == b
  {
    if DumpedMapping(a) == DumpedMapping(b) {
      assert DumpedMapping(a)[1..] == MembersText(a) && DumpedMapping(b)[1..] == MembersText(b);
      assert MembersText(a) + [] == MembersText(b) + [];
      MembersUnique(a, [], b, []);
    }
  }

  /******* Strings end where they begin *******/

  /** No backslash and no '|' outside strings. */
  ghost predicate Quiet(m: Lex, text: string)
    decreases |text|
  {
    text == [] || (!(m == Outside && (text[0] == '\\' || text[0] == '|')) && Quiet(LexStep(m, text[0]), text[1..]))
  }

  ghost predicate Leads(m: Lex, text: string, n: Lex) {
    LexEnd(m, text) == n && Quiet(m, text)
  }

  lemma {:induction false} LeadsConcat(m: Lex, a: string, n: Lex, b: string, l: Lex)
    requires Leads(m, a, n)
    ensures Leads(m, a + b, l) <==> Leads(n, b, l)
    decreases |a|
  {
    if a == [] {
      assert a + b == b;
    } else {
      assert (a + b)[1..] == a[1..] + b;
      LeadsConcat(LexStep(m, a[0]), a[1..], n, b, l);
    }
  }

  lemma {:induction false} PlainLeads(m: Lex, text: string)
    requires m != Escaped && forall i :: 0 <= i < |text| ==> text[i] != '"' && text[i] != '\\' && text[i] != '|'
    ensures Leads(m, text, m)
    decreases |text|
  {
    if text != [] {
      PlainLeads(m, text[1..]);
    }
  }

  lemma UnitLeads(n: nat)
    requires n < 0x1_0000
    ensures Leads(Inside, UnitEscape(n), Inside)
  {
    var text := UnitEscape(n);
    assert text[1..][1..] == Hex4(n);
    PlainLeads(Inside, Hex4(n));
  }

  lemma EscapeLeads(c: char)
    ensures Leads(Inside, Escape(c), Inside)
  {
    if ShortEscape(c).Some? {
      var second := Escape(c)[1..];
      assert second[1..] == [];
      assert Leads(Escaped, second, Inside);
    } else if ' ' <= c <= '~' {
      assert Escape(c)[1..] == [];
    } else {
      UnitLeads(Units(c)[0]);
      if |Units(c)| == 2 {
        UnitLeads(Units(c)[1]);
        LeadsConcat(Inside, UnitEscape(Units(c)[0]), Inside, UnitEscape(Units(c)[1]), Inside);
      }
    }
  }

  lemma {:induction false} StringLeads(s: string)
    ensures Leads(Inside, StringText(s), Outside)
  {
    if s == [] {
      assert StringText(s)[1..] == [];
    } else {
      EscapeLeads(s[0]);
      StringLeads(s[1..]);
      LeadsConcat(Inside, Escape(s[0]), Inside, StringText(s[1..]), Outside);
    }
  }

  lemma AfterOne(c: char, text: string)
    requires c != '\\' && c != '|' && Leads(if c == '"' then Inside else Outside, text, Outside)
    ensures Leads(Outside, [c] + text, Outside)
  {
    assert ([c] + text)[1..] == text;
  }

  lemma {:induction false} DumpedLeads(v: Json)
    ensures Leads(Outside, Dumped(v), Outside)
    decreases v
  {
    match v
    case Null => PlainLeads(Outside, Dumped(v));
    case Boolean(_) => PlainLeads(Outside, Dumped(v));
    case Number(_) => PlainLeads(Outside, Dumped(v));
    case Text(content) =>
      StringLeads(content);
      AfterOne('"', StringText(content));
    case Array(items) =>
      ItemsLead(items);
      AfterOne('[', ItemsText(items));
    case Object(members) =>
      MembersLead(members);
      AfterOne('{', MembersText(members));
  }

  lemma {:induction false} ItemsLead(items: Items)
    ensures Leads(Outside, ItemsText(items), Outside)
    decreases items
  {
    match items
    case NoItem => PlainLeads(Outside, "]");
    case Item(first, rest) =>
      DumpedLeads(first);
      ItemsLead(rest);
      SeparatorLeads(rest.NoItem?, ItemsText(rest));
      LeadsConcat(Outside, Dumped(first), Outside, Separated(rest.NoItem?, ItemsText(rest)), Outside);
  }

  lemma SeparatorLeads(last: bool, text: string)
    requires Leads(Outside, text, Outside)
    ensures Leads(Outside, Separated(last, text), Outside)
  {
    if !last {
      AfterOne(',', text);
    }
  }

  lemma {:induction false} MembersLead(members: Members)
    ensures Leads(Outside, MembersText(members), Outside)
    decreases members
  {
    match members
    case NoMember => PlainLeads(Outside, "}");
    case Member(key, value, rest) =>
      var more := Separated(rest.NoMember?, MembersText(rest));
      MembersLead(rest);
      SeparatorLeads(rest.NoMember?, MembersText(rest));
      DumpedLeads(value);
      LeadsConcat(Outside, Dumped(value), Outside, more, Outside);
      AfterOne(':', Dumped(value) + more);
      StringLeads(key);
      LeadsConcat(Inside, StringText(key), Outside, AfterKey(members), Outside);
      AfterOne('"', StringText(key) + AfterKey(members));
  }

  /** A text read from outside and from inside a string without a backslash outside: the two readings stay opposite. */
  lemma {:induction false} OppositeReadings(m: Lex, n: Lex, text: string)
    requires (m == Outside && n == Inside) || (m == Inside && n == Outside)
    requires Quiet(m, text) && Quiet(n, text)
    ensures LexEnd(m, text) != LexEnd(n, text)
    decreases |text|
  {
    if text != [] {
      OppositeReadings(LexStep(m, text[0]), LexStep(n, text[0]), text[1..]);
    }
  }

  /** In the text of one mapping no '|' is followed by exactly the text of another. */
  lemma NoMappingAfterBar(a: Members, b: Members, before: string)
    ensures DumpedMapping(a) != before + ("|" + DumpedMapping(b))
  {
    DumpedLeads(Object(a));
    DumpedLeads(Object(b));
    if DumpedMapping(a) == before + ("|" + DumpedMapping(b)) {
      var m := QuietSplit(Outside, before, "|" + DumpedMapping(b));
      assert ("|" + DumpedMapping(b))[1..] == DumpedMapping(b);
      OppositeReadings(Outside, Inside, DumpedMapping(b));
      assert false;
    }
  }

  lemma {:induction false} QuietSplit(m: Lex, a: string, b: string) returns (n: Lex)
    requires Quiet(m, a + b)
    ensures Leads(m, a, n) && Quiet(n, b) && LexEnd(n, b) == LexEnd(m, a + b)
    decreases |a|
  {
    if a == [] {
      assert a + b == b;
      n := m;
    } else {
      assert (a + b)[1..] == a[1..] + b;
      n := QuietSplit(LexStep(m, a[0]), a[1..], b);
    }
  }
}
