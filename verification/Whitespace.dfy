/** White space as Python's string methods see it. */
module Whitespace {
  import opened Prelude

  predicate IsBlank(c: char) {
    c == ' ' || c == '\t'
  }

  /** Where str.splitlines ends a line. */
  predicate EndsLine(c: char) {
    || c == '\n' || c == '\r' || c == '\U{000B}' || c == '\U{000C}' || c == '\U{001C}' || c == '\U{001D}'
    || c == '\U{001E}' || c == '\U{0085}' || c == '\U{2028}' || c == '\U{2029}'
  }

  /** What str.strip removes and the regular expression class \s matches. */
  predicate IsSpace(c: char) {
    || '\t' <= c <= '\r' || '\U{1C}' <= c <= ' ' || c == '\U{85}' || c == '\U{A0}' || c == '\U{1680}'
    || '\U{2000}' <= c <= '\U{200A}' || '\U{2028}' <= c <= '\U{2029}' || c == '\U{202F}' || c == '\U{205F}'
    || c == '\U{3000}'
  }

  /** These characters by their code points. */
  lemma CodePoints(c: char)
    ensures IsBlank(c) <==> c as int == 32 || c as int == 9
    ensures EndsLine(c) <==>
            || 10 <= c as int <= 13 || 28 <= c as int <= 30 || c as int == 133 || c as int == 8232 || c as int == 8233
    ensures IsSpace(c) <==>
            || 9 <= c as int <= 13 || 28 <= c as int <= 32 || c as int == 133 || c as int == 160 || c as int == 5760
            || 8192 <= c as int <= 8202 || c as int == 8232 || c as int == 8233 || c as int == 8239
            || c as int == 8287 || c as int == 12288
  {
  }

  function RStrip(text: string): (r: string)
    ensures r <= text
    ensures r != [] ==> !IsSpace(Last(r))
    ensures forall i :: |r| <= i < |text| ==> IsSpace(text[i])
  {
    if text != [] && IsSpace(Last(text)) then RStrip(Init(text)) else text
  }

  function LStrip(text: string): string {
    if text != [] && IsSpace(text[0]) then LStrip(text[1..]) else text
  }

  function Strip(text: string): string {
    RStrip(LStrip(text))
  }
}
