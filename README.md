# Mr. Goose: the exercise and dialog scripts, modelled in Dafny

Mr. Goose is a VS Code extension with a goose that talks to the programmer. It has two webviews:

- **The code-exercise panel** (`src/codeExercisePanel.ts`) shows a fill-in-the-blank exercise.
  - Its script turns the exercise code into numbered, HTML-escaped lines.
  - Each placeholder in a line becomes an `<input>` field with a consecutive id.
  - *Check answers* marks every field green or red and picks a honk sound.
  - Tab and Shift-Tab move between the fields.
  - Each field widens as the user types.
  - Closing the panel clears the panel singleton and disposes the panel's resources, last registered first.
- **The sidebar dialog** (`src/extension.ts`) has a typewriter effect.
  - `typeDialog` restarts a timer-driven pass that reveals one character per step.
  - Every third character it posts a sound cue.
  - At the end of a pass it runs the callback.
  - The help socket's handler accumulates streamed chunks in a buffer and retypes the whole buffer after every chunk.
  - The submit button sends a feature request only when the input is not blank.

The project is organised as follows:

| file | module | what it holds |
|---|---|---|
| `js_strings.dfy` | `JsStrings` | The JavaScript string built-ins the scripts rely on (`indexOf`, `replace` with a string pattern, `split`, `trim`, `toString`), and their properties |
| `html_escape.dfy` | `HtmlEscape` | `escapeHTML` as the source's chain of five global replacements. It is proved equal to a per-character escaping, which is proved reversible and safe |
| `fill_in_blank.dfy` | `FillInBlank` | `processFillInTheBlankCode` as imperative code: the `while (true)` placeholder scan and the `forEach` over lines. Both are proved against a functional reference rendering |
| `exercise_webview.dfy` | `ExerciseWebview` | `checkAnswers` (a loop over the inputs), Tab navigation and the input width |
| `exercise_panel.dfy` | `ExercisePanel` | The panel singleton and `dispose`, as classes with state |
| `typewriter.dfy` | `Typewriter` | The typing effect: a pure step model (`Dialog`), and a class `DialogWebview` whose methods are proved to follow it |
| `stream_dialog.dfy` | `StreamDialog` | `handleStreamedResponse` and the submit button guard. Includes the class `HelpStream` for the installed `onmessage` handler |

Timers are modelled as explicit events.
- `typeDialog` runs the first step at once.
- `AfterTimer` is the scheduled `setTimeout` step firing.
- The 40 ms delay is not modelled.

The cue period is a parameter (`CuePeriod`):
- `src/extension.ts` uses 3;
- the older compiled `out/extension.js` uses 6.

### What the stream handler and the typing effect do not do

- **No append mode.** The code never reveals only the new suffix. Every chunk after the first cancels the scheduled step, empties the dialog and retypes the whole buffer from index 0 (`ChunkRetypesBuffer`).
- **No markers other than the two session markers.** The code has no code-fence markers, no line-break markers and no snippet insertion. A chunk holding backticks is typed like any other text.
- **No `revealed` counter.** The only position is the typewriter's `index`, and it goes back to 0 on every chunk.
- **`Startstreaming` does not cancel typing.** It empties the buffer and the dialog but leaves the scheduled step in place. The next step then writes the next character of the old text into the emptied dialog (`StartDoesNotCancel`).
- **Restarting does cancel the old pass.** `typeDialog` clears the scheduled step before starting. Whatever state the dialog was in, a full pass afterwards shows exactly the new text (`FullPass` holds for every starting state).
- **`isStreaming` is never set to true.** Only `Endstreaming` writes it, and it writes false.

## Model

| member | source | states |
|---|---|---|
| JsStrings.IndexOfIsLeftmost | src/codeExercisePanel.ts:362 | `indexOf(p, from)` returns an occurrence at or after `from` with none before it, and returns -1 exactly when there is no occurrence from `from` on |
| JsStrings.ReplaceFirstAt | src/codeExercisePanel.ts:375 | `replace` with a string pattern rewrites the leftmost occurrence only: if the first occurrence sits between `a` and `b`, the result is `a + rep + b`, for a replacement string without `$` patterns, which is every replacement the script passes |
| JsStrings.ReplaceFirstWithoutOccurrence | src/codeExercisePanel.ts:375 | `replace` leaves text without an occurrence of the pattern unchanged |
| JsStrings.Split | src/codeExercisePanel.ts:352 | splitting on the newline gives at least one line, and no line contains a newline |
| JsStrings.JoinSplit | src/codeExercisePanel.ts:352 | joining the lines of a split with the separator gives back the original code |
| JsStrings.SplitJoin | src/codeExercisePanel.ts:352 | splitting the join of separator-free parts gives back exactly those parts |
| JsStrings.DecimalString | src/codeExercisePanel.ts:367 | `toString` of a non-negative id is a non-empty run of decimal digits that starts with 0 only for 0 |
| JsStrings.DecimalRoundTrip | src/codeExercisePanel.ts:367 | the decimal id string reads back as the id |
| JsStrings.DecimalInjective | src/codeExercisePanel.ts:367 | distinct ids print as distinct strings |
| JsStrings.Trim | src/codeExercisePanel.ts:392-393 | `trim` returns the slice of the text left after dropping a run of ECMAScript whitespace at each end, and a non-empty result neither starts nor ends with whitespace; together these fix the result |
| JsStrings.TrimEmptyIffBlank | src/extension.ts:334 | `s.trim() !== ""` holds exactly when `s` has a character that is not whitespace |
| HtmlEscape.Entity | src/codeExercisePanel.ts:342-349 | each of `& < > " '` becomes an ASCII entity starting with `&`; every other character stays itself |
| HtmlEscape.EscapeHtmlIsPerChar | src/codeExercisePanel.ts:342-349 | the five chained global replacements, `&` first, equal escaping each character once: no entity is escaped a second time |
| HtmlEscape.EscapeCharsConcat | src/codeExercisePanel.ts:342-349 | escaping distributes over concatenation |
| HtmlEscape.UnescapeEscape | src/codeExercisePanel.ts:342-349 | decoding the five entities after `escapeHTML` gives back the original text |
| HtmlEscape.EscapedIsSafe | src/codeExercisePanel.ts:342-349 | escaped text contains no `<`, `>`, `"` or `'`, and each `&` in it begins one of the five entities |
| HtmlEscape.EntitiesHaveNoDollar | src/codeExercisePanel.ts:343-348 | none of the five entities contains `$`, so `replace` inserts each one literally |
| HtmlEscape.EscapeCharsIdentity | src/codeExercisePanel.ts:371 | text without special characters is escaped to itself (so the escaped placeholder is the placeholder) |
| HtmlEscape.EscapePreservesNoOccurrence | src/codeExercisePanel.ts:358 | escaping cannot create an occurrence of a pattern made of non-ASCII characters |
| FillInBlank.SourcePlaceholderValid | src/codeExercisePanel.ts:355 | the placeholder literal is non-empty, has no ASCII character, and is left unchanged by `escapeHTML` |
| FillInBlank.InputField | src/codeExercisePanel.ts:373 | the input tag is non-empty ASCII markup that starts with `<` and ends with `>` |
| FillInBlank.InputFieldHasNoDollar | src/codeExercisePanel.ts:373-375 | the input tag contains no `$`, so `replace` inserts it literally |
| FillInBlank.CodeLineHead | src/codeExercisePanel.ts:380 | the numbered line head is non-empty ASCII markup that starts with `<` and ends with `>` |
| FillInBlank.Blanks | src/codeExercisePanel.ts:365-369 | the blanks pushed for a run of placeholders have consecutive ids, each the decimal string of its number, and expected answer `___` |
| FillInBlank.BlankIdsDistinct | src/codeExercisePanel.ts:365-369 | the generated ids are pairwise distinct and every expected answer is `___` |
| FillInBlank.ReplacePlaceholders | src/codeExercisePanel.ts:358-378 | the scan's result is the reference rendering of the line: escaped text with the k-th placeholder replaced by the input tag with the next id. The pushed blanks are the old ones followed by one blank per placeholder found |
| FillInBlank.ScanTurn | src/codeExercisePanel.ts:362-377 | one turn of the scan keeps the loop invariant: the `replace` of the first escaped placeholder hits exactly the placeholder `indexOf` found, and the text before it holds no placeholder |
| FillInBlank.ScanEnd | src/codeExercisePanel.ts:362-363 | when `indexOf` returns -1 the scan has built the whole rendering and all blanks |
| FillInBlank.TurnText | src/codeExercisePanel.ts:371-377 | after `replace`, the processed line is the processed prefix plus the input tag, followed by the escaped rest of the line |
| FillInBlank.MatchStep | src/codeExercisePanel.ts:377 | resuming the scan after the found placeholder leaves exactly one placeholder fewer to find |
| FillInBlank.ProcessFillInTheBlankCode | src/codeExercisePanel.ts:336-385 | the processed code is the concatenation of one numbered div per line of the split code, and the placeholder list has one blank per placeholder in the code, numbered 1, 2, … in order |
| FillInBlank.LineStep | src/codeExercisePanel.ts:380-381 | processing one more line extends the code by its numbered div and the list by that line's blanks |
| FillInBlank.LineDivsAt | src/codeExercisePanel.ts:357-382 | there is one div per line; div k is line k numbered k + 1, and its blanks are numbered after those of the lines before it |
| FillInBlank.RenderWithoutPlaceholder | src/codeExercisePanel.ts:358-363 | a line without the placeholder comes out as `escapeHTML` of the line |
| FillInBlank.NoPlaceholderLeft | src/codeExercisePanel.ts:358-378 | no placeholder text is left in a processed line |
| FillInBlank.NoPlaceholderInOutput | src/codeExercisePanel.ts:357-382 | no placeholder text is left anywhere in the processed code |
| FillInBlank.MatchesAreOccurrences | src/codeExercisePanel.ts:361-377 | each placeholder the scan finds is a real occurrence, and each starts after the end of the previous one |
| FillInBlank.MatchesCoverOccurrences | src/codeExercisePanel.ts:361-377 | the scan misses no placeholder: every occurrence starts inside one of the found ones |
| ExerciseWebview.NoRedIffAllAccepted | src/codeExercisePanel.ts:394-400 | no input is marked red exactly when every input is accepted |
| ExerciseWebview.CheckAnswers | src/codeExercisePanel.ts:387-420 | `allCorrect` holds exactly when every input is accepted, meaning its trimmed answer equals its trimmed expected answer or the expected answer is `___`. Each input gets green exactly when accepted, else red. The honk is `honk1.mp3` on success and `honk3.mp3` otherwise |
| ExerciseWebview.TrimBlank | src/codeExercisePanel.ts:392 | the generated expected answer `___` is unchanged by `trim` |
| ExerciseWebview.GeneratedInputsPass | src/codeExercisePanel.ts:392-396 | inputs whose expected answer is the generated `___` are accepted whatever the user types |
| ExerciseWebview.NextInputIndex | src/codeExercisePanel.ts:319-321 | Tab moves to `(current + 1) mod count` and Shift-Tab to `(current - 1) mod count`, always to a valid input |
| ExerciseWebview.TabRoundTrip | src/codeExercisePanel.ts:319-321 | Shift-Tab undoes Tab and Tab undoes Shift-Tab |
| ExerciseWebview.InputWidth | src/codeExercisePanel.ts:307 | the width is at least 30 px and at least 8 px per character, and it is one of the two |
| ExercisePanel.CodeExercisePanel.Dispose | src/codeExercisePanel.ts:86-98 | the singleton slot is cleared, the webview panel is disposed, the stack is empty, and every disposable was disposed exactly once, last registered first |
| ExercisePanel.ReversedAt | src/codeExercisePanel.ts:92-97 | the k-th disposable disposed is the k-th from the top of the stack |
| Typewriter.PassSteps | src/extension.ts:241-275 | `typeDialog` followed by k timer steps shows the first k + 1 characters with the next step scheduled, or, at the end of the text, the whole text, stopped, with the callback run once |
| Typewriter.PassNext | src/extension.ts:251-265 | each timer step of a pass in progress reveals the next character and posts a cue when the new index is a multiple of the period |
| Typewriter.FullPass | src/extension.ts:251-273 | `|text|` steps after `typeDialog`, from any earlier state, the whole text is shown, no step is scheduled, `|text| / period` cues were posted and the callback, if given, ran once |
| Typewriter.PassInProgress | src/extension.ts:251-265 | before the end of the text the dialog is still playing, a step is scheduled and the callback has not run |
| Typewriter.StoppedStaysStopped | src/extension.ts:265-272 | with no step scheduled, timer steps change nothing, so the callback runs only once per pass |
| Typewriter.CuesCount | src/extension.ts:258-263 | a pass over n characters posts `n / period` cues, all with sound number 1 |
| Typewriter.TypeDialogConsistent | src/extension.ts:241-250 | after `typeDialog` the dialog shows the first `index` characters of the text and is playing exactly while a step is scheduled |
| Typewriter.TimerConsistent | src/extension.ts:251-265 | a timer step keeps that invariant and advances the index by one exactly when a step was scheduled before the end of the text |
| Typewriter.DialogWebview.Type | src/extension.ts:251-273 | the `type` step updates the script's globals as `AfterType` says: reveal, advance, cue and schedule, or stop and run the callback |
| Typewriter.DialogWebview.TypeDialog | src/extension.ts:241-275 | cancels the scheduled step, restarts at index 0 with an empty dialog and runs the first step, leaving a consistent state |
| Typewriter.DialogWebview.TimerFires | src/extension.ts:265 | a scheduled step is consumed and runs `type`; without one nothing changes |
| StreamDialog.ChunkRetypesBuffer | src/extension.ts:300-316 | a chunk that is not a marker extends the buffer by the chunk and retypes the whole buffer from scratch, in both branches of the handler |
| StreamDialog.MarkersStartNoPass | src/extension.ts:286-298 | `Startstreaming` empties the buffer and the dialog; `Endstreaming` only clears `isStreaming`; neither starts a pass |
| StreamDialog.StartDoesNotCancel | src/extension.ts:286-291 | after `Startstreaming` a still-scheduled step writes the next character of the old text into the emptied dialog |
| StreamDialog.ChunksAccumulate | src/extension.ts:300-316 | after chunks that are not markers the buffer is the old buffer followed by all of them, and the dialog is typing the whole buffer |
| StreamDialog.StartThenChunks | src/extension.ts:286-316 | after `Startstreaming` and chunks that are not markers, the buffer is exactly their concatenation |
| StreamDialog.ChunkShownInFull | src/extension.ts:300-316 | left alone after a chunk, the dialog ends up showing the whole buffer, stopped |
| StreamDialog.HelloWorldSession | src/extension.ts:282-317 | `Startstreaming`, `Hello`, ` world`, `Endstreaming` leave the buffer `Hello world`, the stream ended, and the dialog showing `Hello world` once typed |
| StreamDialog.SubmitFeature | src/extension.ts:332-342 | a request is sent exactly when the input has a character that is not whitespace. It carries the input and the editor code, and installs a fresh handler over an emptied dialog |
| StreamDialog.HelpStream.OnMessage | src/extension.ts:282-317 | the `onmessage` handler updates the buffer, the streaming flag and the dialog as `AfterMessage` says |

## Left out

- JsStrings.ReplaceFirst and HtmlEscape.ReplaceAllChar: insert the replacement literally and do not expand the `$$`, `$&`, `` $` `` and `$'` substitution patterns of `String.prototype.replace`. Every replacement the script passes is free of `$`: the five entities (src/codeExercisePanel.ts:343-348, `EntitiesHaveNoDollar`) and the input tag (src/codeExercisePanel.ts:373, `InputFieldHasNoDollar`).
- The VS Code glue is not modelled: `createOrShow`, `updateExercise`, the extension's message switch, `_getWebviewContent`'s HTML and CSS, commands and activation. It is host API with no logic of its own.
- Playing audio with `ffplay` is not modelled. A sound is a value appended to `sounds` or the honk file name `CheckAnswers` returns.
- The WebSocket and `JSON.stringify` are not modelled. `SubmitFeature` returns the request as a `FeatureRequest` value.
- Timer delays (40 ms, 500 ms) and the initial `setTimeout(() => typeDialog(dialogText), 500)` are not modelled. Timer steps are explicit events; nothing depends on their length.
- The `Math.random` honk numbers of the add-feature and submit buttons are not modelled. They are random and cosmetic.
- The sound selection of `out/extension.js` is not modelled. That file is an older build: it chooses a random sound number and cues every 6 characters. Only its period is captured, through `CuePeriod`.
- DOM effects are not modelled: focus, border colours as CSS, the `hidden`/`success`/`error` classes, message texts, the goose image swap and the button relabel to *Complete Exercise*. Border colours are the `Border` values.
- Parsing of typed text as HTML is not modelled. The dialog appends characters with `innerHTML +=`, so typed text is interpreted as HTML. The model appends the characters as plain text.
- `resetInputs`, `completeExercise` and the webview's `message` listener are not modelled. They only move data between the host and the DOM.
- Re-entrancy of `onDidDispose` into `dispose` is not modelled. `Dispose` is a single call; the disposables are opaque values recorded in `disposedLog`.
- JavaScript strings are sequences of UTF-16 code units; the model's strings are sequences of Unicode scalar values. The two agree on text in the Basic Multilingual Plane, which includes the placeholder and every markup string of the exercise panel. They differ for the typing effect, below.
- Typewriter.FullPass: counts steps and cues per Unicode character, but `type` steps with `charAt` and tests `index % 3` per UTF-16 code unit. A character outside the Basic Multilingual Plane takes two steps, the first showing half a surrogate pair, and counts twice toward the cue period. Both dialog texts the sidebar types start with such a character (the goose, U+1FABF, at src/extension.ts:213 and :325). For them a full pass takes one step more than the model says, and posts `(L + 1) / 3` cues rather than `L / 3` for a text of L characters.
- Typewriter.CuesCount: states `n / period` cues for a pass over n Unicode characters. The source counts UTF-16 code units, so a text with characters outside the Basic Multilingual Plane gets its code-unit count divided by the period, which can be more.
- FillInBlank.ReplacePlaceholders: requires `ValidPlaceholder(p)` (non-empty, no ASCII character) instead of the fixed literal. The literal meets it (`SourcePlaceholderValid`). A placeholder with ASCII characters could overlap the generated markup or the entities, which the source never has to handle.
- FillInBlank.ProcessFillInTheBlankCode: requires `ValidPlaceholder(p)`, for the same reason.
