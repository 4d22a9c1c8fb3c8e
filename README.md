# Elastic Query Studio core, modelled in Dafny

Elastic Query Studio is a VS Code extension for editing and running
Elasticsearch queries written in a plain-text buffer. This project models the
part of the extension that turns the buffer into query blocks and decides how
to present them, and proves what that part promises.

- **JSON comment stripper** (`json_comments.dfy`, module `JsonComments`).
  `stripJsonComments` removes `//` and `/* */` comments from a query body in
  one pass. It tracks whether it is inside a string literal or a comment.
  `isEscaped` counts backslashes to find escaped quotes. There are two modes:
  - whitespace mode, the default, replaces every comment character that is not
    whitespace by a space;
  - compact mode deletes comment text.

  The specification classifies each character as plain text, string literal
  or comment (`Kinds`, from the step function `Step`) and renders the
  classified string (`Render`, `Stripped`). The imperative `StripJsonComments`
  keeps the source's `offset`/`result` bookkeeping and is proved equal to
  that specification.
- **Block scan and selection** (`matches.dfy`, module `Matches`).
  - The `ElasticMatches` constructor folds over the lines of the editor:
    - blank lines are skipped;
    - a start line becomes a new `Match`;
    - a line whose trimmed text starts with `{` right after a start line sets
      `HasBody` on that match.
  - `UpdateSelection` sets each match's `Selected` flag from range
    containment and remembers the last selected match.

  The loop is proved against the fold `ScanLines`. `ScanLinesMeaning` says
  what the fold computes.
- **Decorations** (`decoration.dfy`, module `Decoration`). `UpdateDecoration`
  projects the matches into five range lists: methods, paths, unselected
  blocks, errors and selected blocks.
- **Code lenses** (`code_lens.dfy`, module `CodeLens`). `provideCodeLenses`
  turns each match into one or two lenses, following a decision table on the
  match's error, body and file.
- Supporting modules:
  - `text.dfy` (module `Text`): JavaScript's `\s` class and `String.prototype.trim`;
  - `geometry.dfy` (module `Geometry`): editor positions and ranges, with the
    lexicographic order behind `Range.contains`;
  - `wrappers.dfy` (module `Wrappers`): `Option`.

Two things in the core come from a file that is not part of this model,
`src/ElasticMatch.ts`:
- the start-line regular expression becomes the parameter `isStartLine`;
- the fields `new ElasticMatch(line, match)` computes become the parameter
  `parse`, which returns a `MatchInfo`.

Strings are sequences of Unicode scalar values.

## Model

| member | source | states |
|---|---|---|
| Geometry.LeTotalOrder | test/mocks/vscode.ts:35-38 | Positions are compared line first, then character, and that order is reflexive, antisymmetric, transitive and total. |
| Geometry.ContainsBothEnds | test/mocks/vscode.ts:40-43 | For a selection whose start is not after its end, a range contains the selection exactly when it contains both of its ends. |
| Text.TrimStartSpec | src/ElasticMatches.ts:43 | Trimming the start removes exactly the leading run of whitespace. What remains is empty or starts with a character that is not whitespace. |
| Text.TrimEndSpec | src/ElasticMatches.ts:43 | Trimming the end removes exactly the trailing run of whitespace. |
| Text.FirstVisibleNone | src/ElasticMatches.ts:44 | A line has no character that is not whitespace exactly when every character of it is whitespace. |
| Text.FirstVisibleIs | src/ElasticMatches.ts:46 | The first visible character is `c` exactly when some `c` has only whitespace before it. |
| Text.TrimFirst | src/ElasticMatches.ts:43-46 | The trimmed line is empty exactly when the line has no visible character. Otherwise it starts with the line's first visible character. |
| Text.TrimEmptyIffAllWhitespace | src/ElasticMatches.ts:43-44 | A line is skipped (trimmed length 0) exactly when all its characters are whitespace. |
| Text.TrimmedStartsWith | src/ElasticMatches.ts:46 | The trimmed line starts with a visible `c` (such as `{`) exactly when only whitespace precedes some `c` in the line. |
| JsonComments.BackslashRun | src/helpers.ts:30-37 | The count is the length of the run of backslashes ending just before the quote: every character in the run is a backslash, the character before the run is not, and the count is 0 past the end of the string. |
| JsonComments.IsEscaped | src/helpers.ts:30-40 | The backward-walking loop returns true exactly when an odd number of backslashes come right before the quote. |
| JsonComments.BackslashRunIsMaximalRun | src/helpers.ts:34-37 | Any maximal backslash run ending before the quote has the length the count gives. |
| JsonComments.EscapedQuoteKeepsMode | src/helpers.ts:58-63 | A quote after an odd run of backslashes toggles neither into nor out of a string. In plain text it is plain; inside a string it stays string. |
| JsonComments.Step | src/helpers.ts:58-96 | One pass of the scanner consumes one or two characters and never reads past the end of the input. |
| JsonComments.Run | src/helpers.ts:54-97 | The scanner classifies every remaining character exactly once. |
| JsonComments.StripWithWhitespace | src/helpers.ts:28 | `replace(/\S/g, ' ')` keeps the length. Each character stays if it is whitespace and becomes a space otherwise. |
| JsonComments.Preserved | src/helpers.ts:54-97 | Every pass of the loop body keeps the invariant: the rest of the scan from `index` and the output rendered up to `offset`. This covers the quote test and each of the six branches. |
| JsonComments.StepOver | src/helpers.ts:58-67 | A pass in which no branch fires (inside a string, plain text, or an ordinary comment character) only advances `index`. |
| JsonComments.OpenLineComment | src/helpers.ts:69-73 | The `//` branch flushes the pending plain text and enters a line comment, whose two opening characters are comment. |
| JsonComments.CloseLineCommentCrLf | src/helpers.ts:74-79 | The `\r\n` branch strips the comment through the `\r` and leaves the `\n` pending as plain text. |
| JsonComments.CloseLineCommentLf | src/helpers.ts:80-83 | The `\n` branch strips the comment before the line feed and leaves the line feed pending as plain text. |
| JsonComments.OpenBlockComment | src/helpers.ts:84-89 | The `/*` branch flushes the pending plain text and enters a block comment. |
| JsonComments.CloseBlockComment | src/helpers.ts:90-95 | The `*/` branch strips the comment through its closing `*/`. |
| JsonComments.Finish | src/helpers.ts:99 | After the loop, the result plus the pending stretch is the whole output. The stretch is stripped when the input ends inside a comment and kept otherwise. |
| JsonComments.StripJsonComments | src/helpers.ts:42-100 | The imperative stripper returns exactly the specified output `Stripped(jsonString, whitespace)`, in both modes. |
| JsonComments.RenderWhitespace | src/helpers.ts:28 | In whitespace mode each classified character is rendered in place: kept, or blanked when it is a comment character. |
| JsonComments.WhitespaceModeKeepsOrBlanks | src/helpers.ts:74-99 | Whitespace mode keeps the input's length. Each output character is the input character at the same index, or a space replacing a comment character that is not whitespace. Every whitespace character (so every line break) and every character outside comments is kept. |
| JsonComments.KeptPositions | src/helpers.ts:27 | The positions outside comments, listed in strictly increasing order, all of them and nothing else. |
| JsonComments.RenderCompact | src/helpers.ts:27 | In compact mode the output is the characters at the positions outside comments, in order. |
| JsonComments.CompactIsSubsequence | src/helpers.ts:69-99 | Compact mode outputs a subsequence of the input, no longer than the input: the characters at the increasing positions outside comments. |
| JsonComments.NoOpenerNoComment | src/helpers.ts:58-96 | Scanning from plain text or a string produces no comment character when every `//` and `/*` ahead is inside a string. |
| JsonComments.UnchangedWithoutCommentOutsideStrings | src/helpers.ts:49-99 | Input whose every `//` and `/*` lies inside a double-quoted string comes back unchanged in both modes. |
| JsonComments.UnchangedWithoutCommentMarkers | src/helpers.ts:69-99 | Input with no `//` and no `/*` at all comes back unchanged in both modes. |
| JsonComments.RunQuotedContinues | src/helpers.ts:58-67 | Inside a string, any character but an unescaped quote is followed by another string character. |
| JsonComments.QuotedContinues | src/helpers.ts:58-67 | The same for the whole input: `//`, `/*` and escaped quotes inside a string neither start a comment nor end the string. |
| JsonComments.OpenerInStringStaysInString | src/helpers.ts:58-69 | A `//` or `/*` met inside a string leaves both of its characters in the string. |
| JsonComments.ReachesRun | src/helpers.ts:54-97 | The scan continues past any step boundary it reaches as a fresh scan from that boundary. |
| JsonComments.SplitAt | src/helpers.ts:54-99 | The output splits at a reached step boundary into the output before it and the rendering of the scan after it. |
| JsonComments.BlockCommentToEnd | src/helpers.ts:90-96 | A block comment with no closing `*/` ahead makes the rest of the input comment. |
| JsonComments.UnterminatedBlockComment | src/helpers.ts:84-99 | A `/*` met in plain text with no `*/` after it strips the rest of the input, which is blanked in whitespace mode and deleted in compact mode. |
| JsonComments.LineCommentRun | src/helpers.ts:74-83 | A line comment runs up to the first line feed, including a `\r` right before it. The line feed itself is plain text and the scan goes on in plain text. |
| JsonComments.LineCommentKeepsNewline | src/helpers.ts:69-83 | A `//` comment in plain text ended by a line feed is stripped and the line feed kept, in both modes. |
| JsonComments.CrLfLineComment | src/helpers.ts:74-79 | For a `//` comment ended by `\r\n`, compact mode drops the `\r` with the comment and keeps the `\n`; whitespace mode keeps both. |
| Matches.Match.constructor | src/ElasticMatches.ts:53 | A new match carries the fields its constructor computed, its initial `HasBody`, and is not selected. |
| Matches.StartLinesSpec | src/ElasticMatches.ts:41-56 | The start lines are exactly the lines that are not blank and that the start-line pattern accepts, in strictly increasing line order. |
| Matches.PrevNonBlankSpec | src/ElasticMatches.ts:44-50 | The line the `matched` flag looks back to is the last line that is not blank, with only blank lines after it. |
| Matches.NextNonBlankSpec | src/ElasticMatches.ts:44-46 | The line that can open a body is the first line after the start line that is not blank. |
| Matches.ScanLineEffect | src/ElasticMatches.ts:43-55 | A blank line changes nothing. Any other line sets `matched` exactly when it is a start line, and only a start line adds a match. `HasBody` only turns on, and only on the last match, when `matched` was set and the line opens a body. |
| Matches.ScanStep | src/ElasticMatches.ts:42-55 | One pass of the constructor's loop does to the matches and to `matched` what one step of the fold does. The earlier matches stay in place at their indices; any match added after them is new, and all are distinct. |
| Matches.ScanMatches | src/ElasticMatches.ts:41-56 | The constructor's loop creates exactly the matches the fold describes: new objects, distinct, with the fold's fields and `HasBody` flags. |
| Matches.ScanLinesMeaning | src/ElasticMatches.ts:41-56 | The fold has one match per start line, in line order, each with its constructor fields. `HasBody` is set when the constructor set it or the next line that is not blank opens a body. `matched` says whether the last line that is not blank was a start line. |
| Matches.MatchedMeans | src/ElasticMatches.ts:39-50 | The `matched` flag is set before line `n` exactly when some start line has only blank lines after it up to `n`. |
| Matches.BodyFollowsMeans | src/ElasticMatches.ts:44-46 | A body follows a start line exactly when some later line opens a body and only blank lines lie between. |
| Matches.BlankLineChangesNothing | src/ElasticMatches.ts:44 | A blank line changes neither the start lines, nor the `matched` flag, nor whether a body follows any start line. |
| Matches.ElasticMatches.constructor | src/ElasticMatches.ts:30-59 | With no editor, the list is empty. With an editor, there is one match per start line in line order, with the fields `parse` gives. `HasBody` is the constructor's value or a body on the next line that is not blank. The match objects are distinct. `UpdateSelection` has run, so `Selected` is range containment of the editor's selection and `Selection` is the last such match. |
| Matches.ElasticMatches.UpdateSelection | src/ElasticMatches.ts:61-67 | The list and each `HasBody` are unchanged. Each match's `Selected` is whether its range contains the selection. `Selection` is the last match containing it, or the previous `Selection` when none does. |
| Matches.LastContaining | src/ElasticMatches.ts:63-66 | The index found is that of a match whose range contains the selection, with no later match containing it. When there is none, no match contains it. |
| Matches.ChosenIsLastContaining | src/ElasticMatches.ts:63-66 | When some range contains the selection, `Selection` is a match of the list containing it with no later match containing it. Otherwise `Selection` keeps its previous value. |
| Matches.ChosenIdempotent | src/ElasticMatches.ts:61-67 | Running `UpdateSelection` again with the same selection leaves `Selection` as it is. |
| Decoration.PartRanges | src/ElasticDecoration.ts:113 | Mapping the matches to a part's range gives one entry per match. |
| Decoration.PartRangesAt | src/ElasticDecoration.ts:113 | Entry `t` of the mapped list is the range of match `t`'s part, so the order follows the matches. |
| Decoration.DefinedSpec | src/ElasticDecoration.ts:113 | Filtering out undefined ranges never lengthens the list. It keeps exactly the defined values, and keeps the full length exactly when all are defined. |
| Decoration.DefinedAppend | src/ElasticDecoration.ts:111-118 | Filtering distributes over concatenation, so it preserves order. |
| Decoration.BlocksSpec | src/ElasticDecoration.ts:119-133 | The selected and the unselected block lists together have one entry per match. Each lists exactly the ranges of the matches with that `Selected` value. |
| Decoration.UpdateDecoration | src/ElasticDecoration.ts:106-134 | There are no decorations exactly when there is no editor, because the first `setDecorations` call fails on the undefined editor. |
| Decoration.LayerSpec | src/ElasticDecoration.ts:113-128 | The defined ranges of one part are at most one per match, and are exactly the defined ranges of that part. |
| Decoration.UpdateDecorationParts | src/ElasticDecoration.ts:111-129 | The method, path and error lists each hold exactly the defined ranges of that part, none longer than the list of matches. |
| Decoration.UpdateDecorationBlocks | src/ElasticDecoration.ts:119-133 | Every match's block is drawn in the selected or the unselected style according to its `Selected` flag, one block per match. |
| Decoration.SelectedBlocksHoldSelection | src/ElasticDecoration.ts:119-133 | When every `Selected` flag is range containment, every selected block contains the selection and no unselected block does. |
| CodeLens.ProvideCodeLenses | src/ElasticCodeLensProvider.ts:37-94 | The `forEach` loop pushes exactly each match's lenses, match after match, in list order. |
| CodeLens.LensesForTable | src/ElasticCodeLensProvider.ts:43-91 | A match gets one or two lenses, all at its method's range. The first is "▶ Run Query" with `extension.execute` on the match exactly when the error text is null. A second lens comes exactly when there is no error and there is a body; it is "📂Open File" with `extension.open` when the file's text is set and "⚡Auto indent" with `extension.lint` otherwise, on the match. A match with an error gets one lens with an empty command and no arguments: "⚠️File NotExist", "⚠️Invalid JsonFile" or "⚠️Invalid Json", according to the file. |
| CodeLens.AllLensesCount | src/ElasticCodeLensProvider.ts:42-93 | There are at least one and at most two lenses per match. |
| CodeLens.AllLensesRanges | src/ElasticCodeLensProvider.ts:42-93 | Every lens sits at the method range of a match. |
| CodeLens.AllLensesRunQuery | src/ElasticCodeLensProvider.ts:43-51 | Every match without an error has its "Run Query" lens. Every lens running `extension.execute` is the "Run Query" lens of such a match. |

## Left out

- Strings are sequences of Unicode scalar values, not UTF-16 code units. A character outside the Basic Multilingual Plane inside a comment becomes one space in whitespace mode, where `replace(/\S/g, ' ')` writes two. Output lengths are counted in code points.
- JsonComments.StripJsonComments: the options argument `{ whitespace = true } = {}` becomes a required `bool`. The default of `true` when the option or the whole argument is omitted, and JavaScript truthiness of a `whitespace` value that is not a boolean, are not modelled.
- The `TypeError` that `stripJsonComments` throws for an argument that is not a string cannot arise: the model's argument is always a string.
- `src/ElasticMatch.ts` is not part of this model. Its regular expression, the extraction of method, path, error, file and body, and the `Body` text become the parameters `isStartLine` and `parse`. A match's `Range` is always defined in the model, because `UpdateSelection` calls `Range.contains` on every match without a check. For the same reason, the `!!x` filter on unselected block ranges keeps every entry.
- `Matches.ElasticMatches.constructor`: the editor is a parameter holding the line texts and the selection, not a VS Code object. The `console.error` message for a missing editor is output and is not modelled.
- Matches.ScanStep: the constructor's loop body is a method of its own, called from the loop in `ScanMatches`. The match list is a sequence of match objects, and the constructor assigns it.
- `CodeLens.ProvideCodeLenses` takes the `ElasticMatches` that `provideCodeLenses` builds from `vscode.window.activeTextEditor`. The document and cancellation-token arguments are unused by the source and left out.
- Decoration.UpdateDecoration returns the five lists instead of passing them to `setDecorations`. The decoration styles built by the `ElasticDecoration` constructor, and the `getHost` lookup of the configured host, are VS Code and extension configuration and are left out.
- `src/extension.ts` is not part of this model: activation, commands, query execution over HTTP, `JSON.parse` validation and the result view. The same goes for the HTTP client, the content provider's HTML rendering, debug logging, the REST-spec build script and the test configuration.
