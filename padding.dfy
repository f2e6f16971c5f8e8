/** The indentation of an editor line, as `re.match(r'^(\s+)', line)` finds it. */
module Padding {

  /** Python's `\s` on a byte string: space, tab, line feed, carriage return,
      vertical tab (11) and form feed (12). */
  predicate IsSpace(c: char) {
    c == ' ' || c == '\t' || c == '\n' || c == '\r' || c == 11 as char || c == 12 as char
  }

  predicate AllSpace(s: string) {
    forall i :: 0 <= i < |s| ==> IsSpace(s[i])
  }

  /** The maximal run of whitespace that opens `line`; empty when the line is
      empty or opens with anything else. */
  function LinePadding(line: string): (pad: string)
    ensures |pad| <= |line| && pad == line[..|pad|]
    ensures AllSpace(pad)
    ensures |pad| == |line| || !IsSpace(line[|pad|])
    ensures pad == "" <==> line == "" || !IsSpace(line[0])
    decreases |line|
  {
    if line != "" && IsSpace(line[0]) then [line[0]] + LinePadding(line[1..])
    else ""
  }

  /** The three properties of LinePadding determine it: no other prefix of
      the line is both all whitespace and maximal. */
  lemma PaddingIsUnique(line: string, p: string)
    requires |p| <= |line| && p == line[..|p|]
    requires AllSpace(p)
    requires |p| == |line| || !IsSpace(line[|p|])
    ensures p == LinePadding(line)
  {
  }
}
