/** Characters and lengths as the platform sees them. */
module Text {
  /** White space of regular expressions and of trimming. */
  predicate IsSpace(c: char) {
    || '\t' <= c <= '\r' || c == ' ' || c == '\U{a0}' || c == '\U{1680}' || '\U{2000}' <= c <= '\U{200a}'
    || c == '\U{2028}' || c == '\U{2029}' || c == '\U{202f}' || c == '\U{205f}' || c == '\U{3000}' || c == '\U{feff}'
  }

  /** Characters that take two units of UTF-16. */
  function Supplementary(text: string): nat {
    if text == "" then 0 else Supplementary(text[1..]) + if text[0] > '\U{ffff}' then 1 else 0
  }

  /** The length of a text is counted in units of UTF-16. */
  function Units(text: string): nat {
    |text| + Supplementary(text)
  }

  lemma {:induction false} NoSupplementary(text: string)
    requires forall i :: 0 <= i < |text| ==> text[i] <= '\U{ffff}'
    ensures Units(text) == |text|
  {
    if text != "" {
      NoSupplementary(text[1..]);
    }
  }
}
