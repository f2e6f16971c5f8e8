# Emmet for Sublime Text: the plugin's own logic

The Emmet plugin for Sublime Text (`emmet-plugin.py`) connects editor events
to Emmet's abbreviation-expansion engine, which runs as JavaScript inside the
editor. Almost all of the plugin's code calls the editor or the engine. This
project models the parts that compute something themselves:

- **Line padding** (`Padding`): the run of whitespace that starts an editor line.
- **Unindenting** (`Unindent`): removes one copy of that padding from every line
  of a text before the text is inserted or wrapped. It is an imperative loop
  over the list of lines, proved against a specification function.
- **Line splitting and joining** (`Lines`): the Python string builtins that
  unindenting relies on, with their round-trip and line-count lemmas.
- **Completions** (`Completions`):
  - the attribute-name and attribute-value entries built from the static
    HTML tables;
  - the choice of completion handler at the caret, a first-match search
    proved against a specification function;
  - the answers to the editor's completion and Tab-context queries.
- **User-data payload** (`Settings`): the settings passed to the engine. Only
  the four recognised keys are kept, and only when their values are truthy.

The editor's scope-selector test (`view.match_selector`) is a function
parameter `matches` of the model. So are the tag and attribute names found at
the caret, the static tables and the settings values.

## Model

| member | source | states |
|---|---|---|
| `Lines.SplitLines` | emmet-plugin.py:46 | the lines contain no line break, and there are no lines exactly when the text is empty |
| `Lines.JoinSplitLines` | emmet-plugin.py:46-52 | joining the split lines with '\n' gives back the text without its final line break |
| `Lines.SplitJoin` | emmet-plugin.py:46-52 | splitting the '\n'-join of lines that contain no line break gives back the same lines |
| `Lines.JoinCountsSeparators` | emmet-plugin.py:52 | joining n lines that contain no line break gives exactly n - 1 line breaks |
| `Padding.LinePadding` | emmet-plugin.py:54-60 | the result is a prefix of the line, made only of whitespace, and maximal: either the whole line or followed by a non-whitespace character; it is empty exactly when the line is empty or starts with non-whitespace |
| `Padding.PaddingIsUnique` | emmet-plugin.py:59-60 | any whitespace-only, maximal prefix of the line is the padding |
| `Unindent.Dedent` | emmet-plugin.py:49-50 | a line that starts with `pad` equals `pad` followed by the result, so exactly one copy is removed; any other line is returned unchanged |
| `Unindent.UnindentText` | emmet-plugin.py:40-52 | the in-place loop over the lines returns the unindented text: each line dedented, joined with '\n' |
| `Unindent.UnindentedLines` | emmet-plugin.py:46-52 | split back, the result has one line per input line in the same order; each line that starts with `pad` is `pad` plus the output line, and every other line is unchanged; an empty text gives an empty result |
| `Unindent.UnindentedSeparators` | emmet-plugin.py:46-52 | a non-empty text of n lines unindents to a text with n - 1 line breaks |
| `Unindent.UnindentedEmptyPad` | emmet-plugin.py:49-52 | with an empty `pad`, every line stays unchanged; the text only loses its final line break |
| `Unindent.DedentByOwnPadding` | emmet-plugin.py:33-35 | unindenting a line by its own padding leaves a line with no padding |
| `Completions.AttributeEntryReadsBack` | emmet-plugin.py:111 | an attribute entry for `v` has trigger `v`, hint `@v` and inserts `v="$1"` |
| `Completions.ValueEntryReadsBack` | emmet-plugin.py:116 | a value entry for `v` has trigger `v`, hint `@=v` and inserts `v` |
| `Completions.ElementAttributeCompletions` | emmet-plugin.py:108-111 | one attribute entry per attribute listed for the tag, in table order; no entries when no tag was found or the table lacks it |
| `Completions.AttributeValueCompletions` | emmet-plugin.py:113-116 | one value entry per value listed for the attribute, in table order; no entries when no attribute was found or the table lacks it |
| `Completions.FirstEligibleIsFirst` | emmet-plugin.py:132-139 | the chosen handler exists exactly when some handler is eligible (not blacklisted, selector matching at `pos` or `pos - 1`), and it is eligible with no eligible handler before it |
| `Completions.BlacklistedNeverChosen` | emmet-plugin.py:133-134 | a handler whose name is in the blacklist is never chosen |
| `Completions.CompletionHandler` | emmet-plugin.py:118-139 | the loop with `continue` and early return chooses the first eligible handler of the inside-tag, inside-attribute order, or none |
| `Completions.QueryCompletions` | emmet-plugin.py:159-169 | no entries outside Emmet's scope or when completions are disabled; otherwise the chosen handler's entries, or none when no handler applies |
| `Completions.QueryContext` | emmet-plugin.py:141-157 | Tab is left to the engine exactly when the key is `is_abbreviation`, no completion handler applies (or completions are disabled or the scope is wrong), and the caret is not in a banned scope |
| `Settings.UserDataPayload` | emmet-plugin.py:65-70 | the payload holds exactly the recognised keys whose settings are present and truthy, each with the setting's value |

## Left out

- Line splitting uses '\n' as the only line boundary. Python's `splitlines` also
  breaks at '\r' and "\r\n". The model does keep two of its rules: an empty text
  has no lines, and a final line break does not start an empty line.
- Whitespace is Python 2's byte-string `\s`: space, tab, '\n', '\r', vertical tab
  and form feed. Unicode whitespace is not modelled. Strings are sequences of
  characters, so the UTF-8 encoding and decoding of snippet text is not modelled.
- The editor API is not modelled: `replace_substring`, `HandleEnterKey`,
  `RenameTag`, `EmmetInsertAttribute`, `CommandsAsYouTypeBase.run_command`,
  selection and region handling, and the input panel. These are host calls with
  no logic of their own. `view.match_selector` is the parameter `matches`.
- `cmpl.find_tag_name`, `cmpl.find_attribute_name` and the two HTML tables live
  in the completions package, which is not part of this model. Their results are
  parameters.
- The Emmet engine's JavaScript entry points are not modelled (`pyRunAction`,
  `pyExpandAbbreviationAsYouType`, `pyWrapAsYouType`, `pyCaptureWrappingRange`,
  `pyGetTagNameRanges`). Its source is not part of this model. `QueryContext`
  returns `Expand` where the plugin returns the result of the engine's
  `expand_abbreviation` action.
- The as-you-type `insert`/`undo` flow and its `erase` flag are left out. They
  depend on deferred `sublime.set_timeout` callbacks and the editor's undo stack.
- Settings loading, change notification, `Context` construction,
  `set_ext_path`, `ctx.reset` and the JSON serialisation of the payload are left
  out. They are persistence and foreign setup. JSON numbers are reals, so their
  truthiness is "not zero".
- Setting values read as flags (`disable_completions`) are booleans in the model.
  The banned-scope setting is a string. Python would also accept other truthy
  values for both.
