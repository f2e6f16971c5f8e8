/** The plugin's line handling rests on three Python string builtins:
    `s.startswith(prefix)`, `s.splitlines()` and `'\n'.join(lines)`.
    They are modelled here with '\n' as the only line boundary. */
module Lines {

  /** `s.startswith(prefix)` */
  predicate StartsWith(s: string, prefix: string) {
    |prefix| <= |s| && s[..|prefix|] == prefix
  }

  /** A line as `splitlines` yields it: no line-break character inside. */
  predicate NoNewline(line: string) {
    forall i :: 0 <= i < |line| ==> line[i] != '\n'
  }

  predicate AllNoNewline(lines: seq<string>) {
    forall k :: 0 <= k < |lines| ==> NoNewline(lines[k])
  }

  /** True if the last character of `s` is a line break. */
  predicate EndsWithNewline(s: string) {
    s != "" && s[|s| - 1] == '\n'
  }

  /** `s.split('\n')`: the pieces between the line breaks of `s`.
      There is always one piece more than there are line breaks. */
  function Split(s: string): (parts: seq<string>)
    ensures |parts| >= 1
    ensures AllNoNewline(parts)
    decreases |s|
  {
    if s == "" then [""]
    else if s[0] == '\n' then [""] + Split(s[1..])
    else
      var rest := Split(s[1..]);
      [[s[0]] + rest[0]] + rest[1..]
  }

  /** `'\n'.join(lines)` */
  function Join(lines: seq<string>): string
    decreases |lines|
  {
    if lines == [] then ""
    else if |lines| == 1 then lines[0]
    else lines[0] + "\n" + Join(lines[1..])
  }

  /** `text.splitlines()`, with '\n' as the only boundary: an empty text has
      no lines, and a final line break does not open a further, empty line. */
  function SplitLines(text: string): (lines: seq<string>)
    ensures AllNoNewline(lines)
    ensures lines == [] <==> text == ""
  {
    if text == "" then []
    else if EndsWithNewline(text) then Split(text[..|text| - 1])
    else Split(text)
  }

  /** Number of line breaks in `s`. */
  function CountNewlines(s: string): nat
    decreases |s|
  {
    if s == "" then 0
    else (if s[0] == '\n' then 1 else 0) + CountNewlines(s[1..])
  }

  lemma JoinConsChar(c: char, lines: seq<string>)
    requires |lines| >= 1
    ensures Join([[c] + lines[0]] + lines[1..]) == [c] + Join(lines)
  {
  }

  /** Joining the pieces of a split gives the text back. */
  lemma {:induction false} JoinSplit(s: string)
    ensures Join(Split(s)) == s
    decreases |s|
  {
    if s == "" {
    } else if s[0] == '\n' {
      JoinSplit(s[1..]);
      var parts := [""] + Split(s[1..]);
      assert parts[1..] == Split(s[1..]);
      assert Join(parts) == "" + "\n" + Join(Split(s[1..]));
      assert s == "\n" + s[1..];
    } else {
      JoinSplit(s[1..]);
      JoinConsChar(s[0], Split(s[1..]));
      assert s == [s[0]] + s[1..];
    }
  }

  lemma {:induction false} SplitPrefix(a: string, t: string)
    requires NoNewline(a)
    ensures Split(a + t) == [a + Split(t)[0]] + Split(t)[1..]
    decreases |a|
  {
    if a == "" {
      assert a + t == t;
      assert a + Split(t)[0] == Split(t)[0];
      assert Split(t) == [Split(t)[0]] + Split(t)[1..];
    } else {
      assert (a + t)[1..] == a[1..] + t;
      assert (a + t)[0] == a[0];
      SplitPrefix(a[1..], t);
      assert [a[0]] + (a[1..] + Split(t)[0]) == a + Split(t)[0];
    }
  }

  /** Splitting the join of break-free lines gives the lines back. */
  lemma {:induction false} SplitJoin(lines: seq<string>)
    requires |lines| >= 1 && AllNoNewline(lines)
    ensures Split(Join(lines)) == lines
    decreases |lines|
  {
    if |lines| == 1 {
      SplitPrefix(lines[0], "");
      assert lines[0] + "" == lines[0];
    } else {
      var rest := Join(lines[1..]);
      SplitJoin(lines[1..]);
      SplitPrefix(lines[0], "\n" + rest);
      var t := "\n" + rest;
      assert t[0] == '\n' && t[1..] == rest;
      assert Split(t) == [""] + Split(rest);
      assert Split(t)[0] == "" && Split(t)[1..] == lines[1..];
      assert lines[0] + Split(t)[0] == lines[0];
      assert lines[0] + "\n" + rest == lines[0] + ("\n" + rest);
      assert lines == [lines[0]] + lines[1..];
    }
  }

  lemma {:induction false} CountNewlinesAppend(a: string, b: string)
    ensures CountNewlines(a + b) == CountNewlines(a) + CountNewlines(b)
    decreases |a|
  {
    if a != "" {
      assert (a + b)[1..] == a[1..] + b;
      CountNewlinesAppend(a[1..], b);
    } else {
      assert a + b == b;
    }
  }

  lemma {:induction false} NoNewlineCount(a: string)
    requires NoNewline(a)
    ensures CountNewlines(a) == 0
    decreases |a|
  {
    if a != "" {
      NoNewlineCount(a[1..]);
    }
  }

  /** Joining n break-free lines puts exactly n - 1 line breaks between them. */
  lemma {:induction false} JoinCountsSeparators(lines: seq<string>)
    requires |lines| >= 1 && AllNoNewline(lines)
    ensures CountNewlines(Join(lines)) == |lines| - 1
    decreases |lines|
  {
    NoNewlineCount(lines[0]);
    if |lines| > 1 {
      JoinCountsSeparators(lines[1..]);
      CountNewlinesAppend(lines[0], "\n");
      CountNewlinesAppend(lines[0] + "\n", Join(lines[1..]));
    }
  }

  /** `'\n'.join(text.splitlines())` is the text without its final line break. */
  lemma JoinSplitLines(text: string)
    ensures Join(SplitLines(text)) == if EndsWithNewline(text) then text[..|text| - 1] else text
  {
    if text != "" {
      if EndsWithNewline(text) {
        JoinSplit(text[..|text| - 1]);
      } else {
        JoinSplit(text);
      }
    }
  }
}
