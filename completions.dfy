/** The completion side of `TabExpandHandler`: which completion handler
    applies at the caret, the entries each handler builds from its static
    lookup table, and the answers given to the editor's completion and
    context queries. */
module Completions {

  datatype Option<T> = None | Some(value: T)

  /** A completion entry as the plugin builds it: the looked-up value, the
      display text ("trigger<TAB>annotation") and the inserted snippet. */
  datatype Entry = Entry(value: string, display: string, contents: string)

  /** Scope selectors the plugin asks the editor about. The first three are
      the constants `EMMET_SCOPE`, `HTML_INSIDE_TAG` and
      `HTML_INSIDE_TAG_ATTRIBUTE` of the completions package; `Scopes` is a
      selector read from the settings. */
  datatype Selector = EmmetScope | InsideTag | InsideTagAttribute | Scopes(text: string)

  /** The two completion handlers, known to the blacklist by function name. */
  datatype Handler = ElementsAttributes | AttributesValues

  function HandlerName(h: Handler): string {
    match h
    case ElementsAttributes => "html_elements_attributes"
    case AttributesValues => "html_attributes_values"
  }

  /** The `COMPLETIONS` pairs, in the order they are tried. */
  const HandlerTable: seq<(Selector, Handler)> :=
    [(InsideTag, ElementsAttributes), (InsideTagAttribute, AttributesValues)]

  /** `table.get(key, [])`, where the name looked up may not have been found. */
  function Lookup(table: map<string, seq<string>>, key: Option<string>): seq<string> {
    if key.Some? && key.value in table then table[key.value] else []
  }

  predicate NoTab(s: string) {
    forall i :: 0 <= i < |s| ==> s[i] != '\t'
  }

  /** The part of a display text the editor matches against what is typed:
      everything before the first tab. */
  function Trigger(display: string): string
    decreases |display|
  {
    if display == "" || display[0] == '\t' then ""
    else [display[0]] + Trigger(display[1..])
  }

  /** The part of a display text the editor shows as a hint: everything after
      the first tab, or nothing when there is no tab. */
  function Annotation(display: string): string
    decreases |display|
  {
    if display == "" then ""
    else if display[0] == '\t' then display[1..]
    else Annotation(display[1..])
  }

  /** A value without a tab, followed by a tab and a hint, reads back as
      that trigger and that hint. */
  lemma {:induction false} DisplayParts(v: string, hint: string)
    requires NoTab(v)
    ensures Trigger(v + "\t" + hint) == v
    ensures Annotation(v + "\t" + hint) == hint
    decreases |v|
  {
    var d := v + "\t" + hint;
    if v == "" {
      assert d == "\t" + hint;
      assert d[1..] == hint;
    } else {
      assert d[0] == v[0];
      assert d[1..] == v[1..] + "\t" + hint;
      DisplayParts(v[1..], hint);
      assert v == [v[0]] + v[1..];
    }
  }

  /** Entry for an attribute name `v` of the tag at the caret. */
  function AttributeEntry(v: string): Entry {
    Entry(v, v + "\t@" + v, v + "=\"$1\"")
  }

  /** Entry for a value `v` of the attribute at the caret. */
  function ValueEntry(v: string): Entry {
    Entry(v, v + "\t@=" + v, v)
  }

  /** An attribute entry offers `v` as trigger, shows "@v" as hint and
      inserts `v="$1"`, a snippet whose one tab stop sits between the quotes. */
  lemma AttributeEntryReadsBack(v: string)
    requires NoTab(v)
    ensures Trigger(AttributeEntry(v).display) == v
    ensures Annotation(AttributeEntry(v).display) == "@" + v
    ensures AttributeEntry(v).contents == v + "=\"$1\""
  {
    DisplayParts(v, "@" + v);
    assert v + "\t@" + v == v + "\t" + ("@" + v);
  }

  /** A value entry offers `v` as trigger, shows "@=v" as hint and inserts `v`. */
  lemma ValueEntryReadsBack(v: string)
    requires NoTab(v)
    ensures Trigger(ValueEntry(v).display) == v
    ensures Annotation(ValueEntry(v).display) == "@=" + v
    ensures ValueEntry(v).contents == v
  {
    DisplayParts(v, "@=" + v);
    assert v + "\t@=" + v == v + "\t" + ("@=" + v);
  }

  /** `html_elements_attributes`: one attribute entry per attribute name the
      table lists for the tag at the caret, in table order; none when no tag
      was found or the table does not know it. */
  function ElementAttributeCompletions(table: map<string, seq<string>>, tag: Option<string>): (r: seq<Entry>)
    ensures tag.None? || tag.value !in table ==> r == []
    ensures tag.Some? && tag.value in table ==>
      |r| == |table[tag.value]| &&
      forall k :: 0 <= k < |r| ==> r[k].value == table[tag.value][k] && r[k] == AttributeEntry(r[k].value)
  {
    var values := Lookup(table, tag);
    seq(|values|, k requires 0 <= k < |values| => AttributeEntry(values[k]))
  }

  /** `html_attributes_values`: one value entry per value the table lists for
      the attribute at the caret, in table order; none when no attribute was
      found or the table does not know it. */
  function AttributeValueCompletions(table: map<string, seq<string>>, attr: Option<string>): (r: seq<Entry>)
    ensures attr.None? || attr.value !in table ==> r == []
    ensures attr.Some? && attr.value in table ==>
      |r| == |table[attr.value]| &&
      forall k :: 0 <= k < |r| ==> r[k].value == table[attr.value][k] && r[k] == ValueEntry(r[k].value)
  {
    var values := Lookup(table, attr);
    seq(|values|, k requires 0 <= k < |values| => ValueEntry(values[k]))
  }

  /** A handler may serve the caret at `pos` when it is not blacklisted and its
      selector matches at `pos` or just before it. */
  predicate Eligible(entry: (Selector, Handler), blacklist: seq<string>, pos: int,
                     matches: (int, Selector) -> bool)
  {
    HandlerName(entry.1) !in blacklist && (matches(pos, entry.0) || matches(pos - 1, entry.0))
  }

  /** The first eligible handler of `entries`. */
  function FirstEligible(entries: seq<(Selector, Handler)>, blacklist: seq<string>, pos: int,
                         matches: (int, Selector) -> bool): Option<Handler>
    decreases |entries|
  {
    if entries == [] then None
    else if Eligible(entries[0], blacklist, pos, matches) then Some(entries[0].1)
    else FirstEligible(entries[1..], blacklist, pos, matches)
  }

  /** FirstEligible finds a handler exactly when one is eligible, and the one
      it finds is eligible and comes before every other eligible one. */
  lemma {:induction false} FirstEligibleIsFirst(entries: seq<(Selector, Handler)>, blacklist: seq<string>,
                                                pos: int, matches: (int, Selector) -> bool)
    ensures FirstEligible(entries, blacklist, pos, matches).None? <==>
      forall k :: 0 <= k < |entries| ==> !Eligible(entries[k], blacklist, pos, matches)
    ensures FirstEligible(entries, blacklist, pos, matches).Some? ==>
      exists k :: 0 <= k < |entries| && entries[k].1 == FirstEligible(entries, blacklist, pos, matches).value
        && Eligible(entries[k], blacklist, pos, matches)
        && forall j :: 0 <= j < k ==> !Eligible(entries[j], blacklist, pos, matches)
    decreases |entries|
  {
    if entries != [] && !Eligible(entries[0], blacklist, pos, matches) {
      var rest := entries[1..];
      FirstEligibleIsFirst(rest, blacklist, pos, matches);
      forall k | 1 <= k < |entries| ensures entries[k] == rest[k - 1] { }
      if FirstEligible(rest, blacklist, pos, matches).Some? {
        var k :| 0 <= k < |rest| && rest[k].1 == FirstEligible(rest, blacklist, pos, matches).value
          && Eligible(rest[k], blacklist, pos, matches)
          && forall j :: 0 <= j < k ==> !Eligible(rest[j], blacklist, pos, matches);
        assert entries[k + 1] == rest[k];
        forall j | 0 <= j < k + 1 ensures !Eligible(entries[j], blacklist, pos, matches) {
          if j > 0 { assert entries[j] == rest[j - 1]; }
        }
      }
    } else if entries != [] {
      assert Eligible(entries[0], blacklist, pos, matches);
    }
  }

  /** A blacklisted handler is never chosen. */
  lemma BlacklistedNeverChosen(blacklist: seq<string>, pos: int, matches: (int, Selector) -> bool, h: Handler)
    requires HandlerName(h) in blacklist
    ensures FirstEligible(HandlerTable, blacklist, pos, matches) != Some(h)
  {
  }

  /** `completion_handler`: tries the handlers in table order, skipping the
      blacklisted ones, and returns the first whose selector matches at the
      caret or one position before it. */
  method CompletionHandler(blacklist: seq<string>, pos: int, matches: (int, Selector) -> bool)
    returns (h: Option<Handler>)
    ensures h == FirstEligible(HandlerTable, blacklist, pos, matches)
  {
    for i := 0 to |HandlerTable|
      invariant FirstEligible(HandlerTable[i..], blacklist, pos, matches)
             == FirstEligible(HandlerTable, blacklist, pos, matches)
    {
      var (selector, handler) := HandlerTable[i];
      if HandlerName(handler) in blacklist {
        continue;
      }
      if matches(pos, selector) || matches(pos - 1, selector) {
        return Some(handler);
      }
    }
    return None;
  }

  /** The completions a handler produces at the caret. */
  function HandlerCompletions(h: Handler, elements: map<string, seq<string>>, tag: Option<string>,
                              attributes: map<string, seq<string>>, attr: Option<string>): seq<Entry>
  {
    match h
    case ElementsAttributes => ElementAttributeCompletions(elements, tag)
    case AttributesValues => AttributeValueCompletions(attributes, attr)
  }

  /** `on_query_completions`: nothing outside Emmet's scope or when
      completions are disabled; otherwise the entries of the handler chosen
      for the caret, or nothing when no handler applies. */
  method QueryCompletions(pos: int, matches: (int, Selector) -> bool, disableCompletions: bool,
                          blacklist: seq<string>,
                          elements: map<string, seq<string>>, tag: Option<string>,
                          attributes: map<string, seq<string>>, attr: Option<string>)
    returns (entries: seq<Entry>)
    ensures !matches(pos, EmmetScope) || disableCompletions ==> entries == []
    ensures matches(pos, EmmetScope) && !disableCompletions ==>
      match FirstEligible(HandlerTable, blacklist, pos, matches)
      case None => entries == []
      case Some(h) => entries == HandlerCompletions(h, elements, tag, attributes, attr)
  {
    if !matches(pos, EmmetScope) || disableCompletions {
      return [];
    }
    var handler := CompletionHandler(blacklist, pos, matches);
    if handler.Some? {
      entries := HandlerCompletions(handler.value, elements, tag, attributes, attr);
      return;
    }
    return [];
  }

  /** Answer to the editor's question whether Tab should expand an abbreviation. */
  datatype TabAnswer =
    | Decline   // the plugin answers False and Tab keeps its usual meaning
    | Expand    // the answer is left to the engine's `expand_abbreviation` action

  /** `on_query_context`: declines keys other than `is_abbreviation`, declines
      where a completion handler applies (unless completions are disabled),
      declines in the scopes the settings ban, and otherwise hands over to the
      expansion engine. */
  method QueryContext(key: string, pos: int, matches: (int, Selector) -> bool, disableCompletions: bool,
                      blacklist: seq<string>, bannedScopes: string)
    returns (answer: TabAnswer)
    ensures answer == Expand <==>
      && key == "is_abbreviation"
      && !(!disableCompletions && matches(pos, EmmetScope)
           && FirstEligible(HandlerTable, blacklist, pos, matches).Some?)
      && !(bannedScopes != "" && matches(pos, Scopes(bannedScopes)))
  {
    if key != "is_abbreviation" {
      return Decline;
    }
    if !disableCompletions && matches(pos, EmmetScope) {
      var handler := CompletionHandler(blacklist, pos, matches);
      if handler.Some? {
        return Decline;
      }
    }
    if bannedScopes != "" && matches(pos, Scopes(bannedScopes)) {
      return Decline;
    }
    return Expand;
  }
}
