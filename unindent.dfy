/** `unindent_text`: removes one copy of a padding string from the start of
    every line of a text that begins with it. */
module Unindent {
  import opened Lines
  import Padding

  /** One line with a single leading copy of `pad` taken off, when it has one. */
  function Dedent(line: string, pad: string): (r: string)
    ensures StartsWith(line, pad) ==> line == pad + r
    ensures !StartsWith(line, pad) ==> r == line
  {
    if StartsWith(line, pad) then line[|pad|..] else line
  }

  function DedentAll(lines: seq<string>, pad: string): seq<string> {
    seq(|lines|, k requires 0 <= k < |lines| => Dedent(lines[k], pad))
  }

  /** What `unindent_text(text, pad)` returns. */
  function Unindented(text: string, pad: string): string {
    Join(DedentAll(SplitLines(text), pad))
  }

  /** The plugin's loop: split the text into lines, replace in place every
      line that starts with `pad` by the rest of it, and join with '\n'. */
  method UnindentText(text: string, pad: string) returns (r: string)
    ensures r == Unindented(text, pad)
  {
    var lines := SplitLines(text);
    ghost var input := lines;
    for i := 0 to |lines|
      invariant |lines| == |input|
      invariant forall k :: 0 <= k < i ==> lines[k] == Dedent(input[k], pad)
      invariant forall k :: i <= k < |lines| ==> lines[k] == input[k]
    {
      var line := lines[i];
      if StartsWith(line, pad) {
        lines := lines[i := line[|pad|..]];
      }
    }
    assert lines == DedentAll(input, pad);
    r := Join(lines);
  }

  lemma DedentKeepsNoNewline(line: string, pad: string)
    requires NoNewline(line)
    ensures NoNewline(Dedent(line, pad))
  {
  }

  /** Split back at its line breaks, the result has exactly one line per input
      line, in the same order: the lines that start with `pad` lose one copy of
      it and the others are unchanged. An empty text gives an empty result. */
  lemma UnindentedLines(text: string, pad: string)
    ensures text == "" ==> Unindented(text, pad) == ""
    ensures text != "" ==>
      var input, output := SplitLines(text), Split(Unindented(text, pad));
      && |output| == |input|
      && (forall k :: 0 <= k < |input| && StartsWith(input[k], pad) ==> input[k] == pad + output[k])
      && (forall k :: 0 <= k < |input| && !StartsWith(input[k], pad) ==> output[k] == input[k])
  {
    if text != "" {
      var input := SplitLines(text);
      var lines := DedentAll(input, pad);
      forall k | 0 <= k < |lines| ensures NoNewline(lines[k]) {
        DedentKeepsNoNewline(input[k], pad);
      }
      SplitJoin(lines);
    }
  }

  /** A text of n lines comes back with n - 1 line breaks. */
  lemma UnindentedSeparators(text: string, pad: string)
    requires text != ""
    ensures CountNewlines(Unindented(text, pad)) == |SplitLines(text)| - 1
  {
    var input := SplitLines(text);
    var lines := DedentAll(input, pad);
    forall k | 0 <= k < |lines| ensures NoNewline(lines[k]) {
      DedentKeepsNoNewline(input[k], pad);
    }
    JoinCountsSeparators(lines);
  }

  /** With an empty padding every line stays as it is; the text only loses
      its final line break, if it has one. */
  lemma UnindentedEmptyPad(text: string)
    ensures Unindented(text, "") == if EndsWithNewline(text) then text[..|text| - 1] else text
  {
    var input := SplitLines(text);
    assert DedentAll(input, "") == input;
    JoinSplitLines(text);
  }

  /** Unindenting a line by its own padding leaves a line with no padding. */
  lemma DedentByOwnPadding(line: string)
    ensures Padding.LinePadding(Dedent(line, Padding.LinePadding(line))) == ""
  {
  }
}
