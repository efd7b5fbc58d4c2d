/** Character classes and searches shared by the text transformations. */
module Characters {

  /** The characters matched by `\s` and removed by `trim`. */
  predicate IsSpace(c: char) {
    c in " \t\n\r" || c in {'\U{000B}', '\U{000C}', '\U{00A0}', '\U{1680}', '\U{2028}', '\U{2029}', '\U{202F}', '\U{205F}', '\U{3000}', '\U{FEFF}'}
    || '\U{2000}' <= c <= '\U{200A}'
  }

  predicate Blank(s: string) {
    forall c <- s :: IsSpace(c)
  }

  /** `needle` stands at position `i`. */
  predicate At(s: string, i: nat, needle: string) {
    i + |needle| <= |s| && s[i..i + |needle|] == needle
  }

  /** `s.indexOf(needle, from)`, with the length of `s` for no match. */
  function Find(s: string, from: nat, needle: string): (r: nat)
    requires from <= |s|
    ensures from <= r <= |s| && (r < |s| ==> At(s, r, needle)) && forall k :: from <= k < r ==> !At(s, k, needle)
    decreases |s| - from
  {
    if from == |s| || At(s, from, needle) then from else Find(s, from + 1, needle)
  }
}
