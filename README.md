# Visual learning assistant: solution steps, submission and session list

A verified Dafny model of the client-side logic of a browser "visual learning
assistant". The user takes a photo, may record a spoken question and types
some context. The assistant sends all three to a backend, which answers with a
text solution and one audio file per step. The view then shows the solution
step by step and can narrate it. A second component lists past sessions, and
each entry can be expanded.

What is modelled:

- **Solution steps** (`StepText`). The backend's `text_solution` is split on
  the blank line `"\n\n"` exactly as JavaScript's `String.prototype.split`
  does: scanning from the left, with cuts that never overlap. Pieces that are
  empty after `trim()` are then dropped. `trim()` removes the ECMAScript white
  space and line terminator characters. Proved: joining the pieces gives back
  the text. No piece holds a blank line. Each cut is made at the leftmost blank line, so
  a piece followed by a cut never ends in a line feed. `trim()` removes white
  space at the two ends and nothing else. A text comes back as one piece exactly
  when it holds no blank line. Steps keep the order of the text. There are no
  steps exactly when every piece is blank.
- **Step index** (`StepNavigation`). This covers Previous
  (`Math.max(0, i - 1)`), Next (`Math.min(count - 1, i + 1)`), their disabled
  checks, and the advance when a step's audio ends. Proved: once the index is
  in range, no sequence of these events takes it out of range. Previous and
  Next undo each other. Repeated audio ends walk forward to the last step and
  stop there. With no steps, Next is not disabled and sets the index to -1.
- **Submission** (`Submission`). Recorded chunks are kept in order, and the
  audio blob is their concatenation. The form fields are `image` (always),
  `audio` (only when there are chunks) and `text_context` (always). A null
  image is sent as the string `"null"`. The solution is replaced only by a
  successful answer.
- **The view's state** (`Assistant.VisualLearningAssistant`). A class with the
  component's state fields and one method per handler: recording, chunk
  arrival, photo and context, the two halves of `submitDoubt` and the whole
  handler, play, pause, audio end, Previous and Next. The class keeps two
  invariants. A recording always has a recorder. The index is never below -1.
  Each navigation handler keeps "the index points at a step whenever there are
  steps". `TwoStepExample` walks through a submission with no recorded audio
  whose answer has two steps separated by a blank line: two fields are sent,
  two steps are shown, and the first step plays.
- **Session list** (`Sessions`). The single nullable `expandedSession` index,
  the click toggle, and the test `expandedSession === index` that decides
  whether an entry shows its details panel and up chevron (`IsExpanded`,
  `ShowsDetails`). Proved: at most one entry is
  open. A click opens only the clicked entry, or closes it if it was open. Two
  clicks on an entry that was not open leave it closed. After any clicks, the
  open entry, if there is one, is the one clicked last. `n` clicks on one entry
  flip it `n` times.

Two places where the code and a plain reading of its purpose differ (the model
follows the code):

- `stopRecording` does not check `isRecording`. It acts whenever a recorder
  was ever created, because the recorder reference is never cleared.
- The `image` field is always appended, even when no photo was taken. In that
  case it carries the string `"null"`.

Two edge cases the model makes visible:

- When every piece of the answer is blank, there are no steps. Next is then
  enabled (`0 !== -1`) and sets `currentStep` to -1 (`ClickNext`,
  `NextWithoutSteps`).
- `currentStep` is reset when a request starts, not when its answer arrives.
  If the user clicks Next while the request is out and the new answer has
  fewer steps, the index can point past the last step. `StaleIndexExample`
  shows this: after a two-step answer, a second request starts, Next is
  clicked, and a one-step answer arrives, which leaves the index at 1, past
  the only step. `FinishSubmit` therefore promises nothing about the index.

## Model

| member | source | states |
|---|---|---|
| `StepText.Split` | src/components/VisualLearningAssistant.jsx:108 | splitting on "\n\n" always gives at least one piece |
| `StepText.FirstPieceIsPrefix` | src/components/VisualLearningAssistant.jsx:108 | the first piece is a prefix of the text |
| `StepText.JoinSplit` | src/components/VisualLearningAssistant.jsx:108 | joining the pieces with "\n\n" gives back the original text (nothing is lost or reordered) |
| `StepText.PiecesHaveNoSep` | src/components/VisualLearningAssistant.jsx:108 | no piece contains the separator "\n\n" |
| `StepText.SplitWholeIffNoSep` | src/components/VisualLearningAssistant.jsx:108 | the text is returned as its only piece if and only if it contains no "\n\n" |
| `StepText.SplitExtendsFirst` | src/components/VisualLearningAssistant.jsx:108 | a character not starting a separator joins the first piece of the rest |
| `StepText.SplitAfterSep` | src/components/VisualLearningAssistant.jsx:108 | a text starting with the separator gives an empty first piece and then the pieces of the rest |
| `StepText.SplitAroundSep` | src/components/VisualLearningAssistant.jsx:108 | the pieces of `a + "\n\n" + b` are those of `a` followed by those of `b` when `a` does not end in a line feed |
| `StepText.SplitAroundSepLeadingSep` | src/components/VisualLearningAssistant.jsx:108 | induction step of `SplitAroundSep` when `a` starts with the separator: assuming the property for what follows that separator, it holds for `a` |
| `StepText.SplitAroundSepLeadingChar` | src/components/VisualLearningAssistant.jsx:108 | induction step of `SplitAroundSep` when the first character of `a` joins the first piece: assuming the property for the rest of `a`, it holds for `a` |
| `StepText.CutPiecesDoNotEndInLineFeed` | src/components/VisualLearningAssistant.jsx:108 | cuts are made at the leftmost separator: every piece that a separator follows is empty or does not end in a line feed |
| `StepText.FirstOfSplitJoinsRest` | src/components/VisualLearningAssistant.jsx:108 | the first character of a text that does not start with the separator begins the first piece |
| `StepText.LeadingWhitespace` | src/components/VisualLearningAssistant.jsx:108 | the count of leading white space never exceeds the length |
| `StepText.TrailingWhitespace` | src/components/VisualLearningAssistant.jsx:108 | the count of trailing white space never exceeds the length |
| `StepText.LeadingWhitespaceSpan` | src/components/VisualLearningAssistant.jsx:108 | `trim()` removes only white space at the start and stops at the first other character |
| `StepText.TrailingWhitespaceSpan` | src/components/VisualLearningAssistant.jsx:108 | `trim()` removes only white space at the end and stops at the last other character |
| `StepText.Trim` | src/components/VisualLearningAssistant.jsx:108 | the result of `trim()` neither starts nor ends with white space |
| `StepText.TrimKeepsMiddle` | src/components/VisualLearningAssistant.jsx:108 | the text is its leading white space, then `trim()` of it, then its trailing white space: `trim()` removes white space at the ends and nothing else |
| `StepText.IsBlank` | src/components/VisualLearningAssistant.jsx:108 | `step.trim()` is the empty string exactly when the leading white space runs to the end of the step |
| `StepText.BlankIffAllWhitespace` | src/components/VisualLearningAssistant.jsx:108 | `step.trim()` is empty (the step is filtered out) if and only if every character is white space |
| `StepText.KeepNonBlank` | src/components/VisualLearningAssistant.jsx:108 | the filter keeps no blank piece and never adds pieces |
| `StepText.KeptArePieces` | src/components/VisualLearningAssistant.jsx:108 | every kept step is one of the split pieces |
| `StepText.KeepNonBlankAppend` | src/components/VisualLearningAssistant.jsx:108 | filtering distributes over concatenation, so kept pieces stay in their original order |
| `StepText.KeepNonBlankIdentity` | src/components/VisualLearningAssistant.jsx:108 | the filter removes nothing if and only if no piece is blank |
| `StepText.KeepNonBlankEmpty` | src/components/VisualLearningAssistant.jsx:108 | the filter leaves nothing if and only if every piece is blank |
| `StepText.Steps` | src/components/VisualLearningAssistant.jsx:108 | every step is non-blank after trimming and contains no "\n\n" |
| `StepText.StepsHaveNoSep` | src/components/VisualLearningAssistant.jsx:108 | no kept step contains the separator |
| `StepText.SingleStep` | src/components/VisualLearningAssistant.jsx:108 | a non-blank text with no "\n\n" yields exactly one step, the whole text |
| `StepText.NoStepsIffAllBlank` | src/components/VisualLearningAssistant.jsx:108 | `steps` is empty if and only if every separated piece is blank |
| `StepText.StepsAroundSep` | src/components/VisualLearningAssistant.jsx:108 | the steps of `a + "\n\n" + b` are the steps of `a` followed by those of `b`, so steps keep the text's order |
| `StepText.NoLineFeedNoSep` | src/components/VisualLearningAssistant.jsx:108 | a text without line feeds holds no separator |
| `StepText.StartsWithTextNotBlank` | src/components/VisualLearningAssistant.jsx:108 | a text starting with a character that is not white space survives the filter |
| `StepText.OneLineStep` | src/components/VisualLearningAssistant.jsx:108 | a single line of text is one step |
| `StepText.TwoLineSteps` | src/components/VisualLearningAssistant.jsx:108 | two single lines around a blank line give exactly those two steps |
| `StepNavigation.Previous` | src/components/VisualLearningAssistant.jsx:253 | Previous never gives a negative index, steps back by one from 1 upward, and stays at 0 |
| `StepNavigation.Next` | src/components/VisualLearningAssistant.jsx:260 | Next never goes past `count - 1` or more than one ahead, and gives either `i + 1` or `count - 1` |
| `StepNavigation.PreviousDisabled` | src/components/VisualLearningAssistant.jsx:255 | Previous is disabled where a click could not move the index (step 0); above it, a click steps back by one |
| `StepNavigation.NextDisabled` | src/components/VisualLearningAssistant.jsx:262 | Next is disabled where a click could not move the index (the last step); below it, a click steps forward by one |
| `StepNavigation.ClickPrevious` | src/components/VisualLearningAssistant.jsx:253-255 | an index at or above 0 stays at or above 0 and never grows; it steps back by one above 0 and stays at 0 |
| `StepNavigation.ClickNext` | src/components/VisualLearningAssistant.jsx:260-262 | an in-range index stays in range and never shrinks; it steps forward by one below the last step and stays on the last step |
| `StepNavigation.AdvanceOnEnd` | src/components/VisualLearningAssistant.jsx:141-142 | the index grows by exactly one if and only if it is below `count - 1`, and otherwise stays the same |
| `StepNavigation.DisabledChecksAgreeWithClamps` | src/components/VisualLearningAssistant.jsx:253-262 | a click that the disabled checks would block would not change the index anyway |
| `StepNavigation.PreviousNextInverse` | src/components/VisualLearningAssistant.jsx:253-262 | inside the range, Next undoes Previous and Previous undoes Next |
| `StepNavigation.RunStaysInRange` | src/components/VisualLearningAssistant.jsx:139-145 | from an in-range index with steps present, any sequence of Previous, Next and audio-end events keeps the index in [0, count - 1] |
| `StepNavigation.NextWithoutSteps` | src/components/VisualLearningAssistant.jsx:260-262 | with no steps, Next is not disabled and sets the index to -1 |
| `StepNavigation.AudioEndsReachLastStep` | src/components/VisualLearningAssistant.jsx:139-145 | `n` audio ends move the index to `min(i + n, count - 1)`: the narration advances and stops on the last step |
| `Submission.Concat` | src/components/VisualLearningAssistant.jsx:93 | the blob of no chunks is empty |
| `Submission.ConcatAppend` | src/components/VisualLearningAssistant.jsx:63 | a chunk appended to the list lands at the end of the audio blob, after all earlier bytes |
| `Submission.ImageText` | src/components/VisualLearningAssistant.jsx:90 | the captured data URL is sent as it is; a missing image is sent as the four-character string "null" |
| `Submission.FormFields` | src/components/VisualLearningAssistant.jsx:89-97 | `image` is sent first and `text_context` last, always; `audio`, the concatenated chunks, is present exactly when there are chunks |
| `Submission.SolutionAfter` | src/components/VisualLearningAssistant.jsx:108-115 | a failure leaves the solution unchanged; a success replaces it with the answer's audio names and with exactly the steps of `text_solution` (split on "\n\n", blank pieces dropped), none of them blank |
| `Assistant.VisualLearningAssistant.constructor` | src/components/VisualLearningAssistant.jsx:6-18 | initial state: no recording, image, solution, loading, playback or chunks; step 0 |
| `Assistant.VisualLearningAssistant.StartRecording` | src/components/VisualLearningAssistant.jsx:57-70 | a granted microphone installs a recorder and starts recording; a refusal changes nothing |
| `Assistant.VisualLearningAssistant.DataAvailable` | src/components/VisualLearningAssistant.jsx:62-64 | exactly one chunk is appended at the end, and all earlier chunks are kept |
| `Assistant.VisualLearningAssistant.StopRecording` | src/components/VisualLearningAssistant.jsx:72-78 | without a recorder nothing changes; with one, recording is off |
| `Assistant.VisualLearningAssistant.CaptureImage` | src/components/VisualLearningAssistant.jsx:38-39 | the captured frame becomes the image |
| `Assistant.VisualLearningAssistant.RetakePhoto` | src/components/VisualLearningAssistant.jsx:190-193 | the captured image is dropped |
| `Assistant.VisualLearningAssistant.EditContext` | src/components/VisualLearningAssistant.jsx:232 | the context becomes the typed text |
| `Assistant.VisualLearningAssistant.BeginSubmit` | src/components/VisualLearningAssistant.jsx:80-97 | recording is stopped, loading starts at step 0, and the fields sent are `FormFields` of the image, chunks and context |
| `Assistant.VisualLearningAssistant.FinishSubmit` | src/components/VisualLearningAssistant.jsx:99-119 | the solution is replaced only on success; in both outcomes loading ends and the chunks are cleared |
| `Assistant.VisualLearningAssistant.SubmitDoubt` | src/components/VisualLearningAssistant.jsx:80-120 | after either outcome: not recording, not loading, no chunks, step 0 in range; solution replaced exactly on success |
| `Assistant.VisualLearningAssistant.HasAudioForCurrentStep` | src/components/VisualLearningAssistant.jsx:123 | an audio name exists only with a solution, an index inside its audio list and a non-empty name there; never with no solution or a negative index |
| `Assistant.VisualLearningAssistant.PlayCurrentStep` | src/components/VisualLearningAssistant.jsx:122-130 | without an audio name for the current step nothing changes; with one, the view is playing |
| `Assistant.VisualLearningAssistant.PauseAudio` | src/components/VisualLearningAssistant.jsx:132-137 | with the audio element present, playing stops |
| `Assistant.VisualLearningAssistant.HandleAudioEnd` | src/components/VisualLearningAssistant.jsx:139-145 | playing stops; the index grows by one only below the last step, otherwise it is unchanged; the range is kept |
| `Assistant.VisualLearningAssistant.ClickPrevious` | src/components/VisualLearningAssistant.jsx:252-258 | the index becomes `max(0, i - 1)`, is never negative, and the range is kept |
| `Assistant.VisualLearningAssistant.ClickNext` | src/components/VisualLearningAssistant.jsx:259-265 | the index becomes `min(count - 1, i + 1)` and the range is kept; with no steps it becomes -1 |
| `Sessions.IsExpanded` | src/components/Sessions.jsx:24-27 | entry `k` shows details exactly when the expanded index holds `k`; with nothing expanded no entry does |
| `Sessions.Toggled` | src/components/Sessions.jsx:18 | a click collapses the entry if it is open, and otherwise opens that entry |
| `Sessions.AtMostOneExpanded` | src/components/Sessions.jsx:24-27 | two entries that both show details are the same entry |
| `Sessions.ClickOpensOnlyClicked` | src/components/Sessions.jsx:18-27 | after a click on `i`, entry `k` shows its details if and only if `k == i` and `i` was closed |
| `Sessions.ClickTwiceRestores` | src/components/Sessions.jsx:18 | from collapsed, or from `i` open, two clicks on `i` restore the state |
| `Sessions.ClickTwiceCollapses` | src/components/Sessions.jsx:18 | two clicks on an entry that was not open leave nothing open |
| `Sessions.ClicksLeaveLastOrNone` | src/components/Sessions.jsx:18 | after any clicks, either nothing is open or only the entry clicked last |
| `Sessions.RepeatedClicks` | src/components/Sessions.jsx:18 | `n` clicks on one entry leave the state as it was when `n` is even, and toggled when `n` is odd |
| `Sessions.SessionList.constructor` | src/components/Sessions.jsx:5 | initially no entry is expanded |
| `Sessions.SessionList.ShowsDetails` | src/components/Sessions.jsx:24-27 | entry `k` shows details exactly when `expandedSession` is `k`, and then it is the only expanded entry |
| `Sessions.SessionList.Click` | src/components/Sessions.jsx:18-27 | the click toggles `expandedSession`; afterwards only the clicked entry shows details, and only if it was closed before |

## Left out

- Camera handling (`startCamera`, the canvas frame grab, `closeCamera`, stopping tracks) is device I/O. The model receives only the resulting image string through `CaptureImage`.
- Microphone access and `MediaRecorder` are device I/O. Permission is a boolean parameter of `StartRecording`, and each recorded chunk arrives through `DataAvailable`.
- The `fetch` POST and `response.json()` are network I/O. The request ends in an `Outcome`: either an answer carrying `text_solution` and `voice_solution_steps`, or a failure. A response without `text_solution` throws inside the `try`, so it counts as a failure. `voice_solution_steps` is taken to be a list of strings, and a missing list is modelled as the empty list.
- The `HTMLAudioElement` and the `/audio/...` URLs are media I/O. Only the `isPlaying` flag and the truthiness test on the audio name are modelled.
- Assistant.VisualLearningAssistant.HandleAudioEnd: the delayed `setTimeout(playCurrentStep, 500)` is not part of the handler. A caller issues `PlayCurrentStep` as a separate event. In the source, that delayed call also reads a stale `currentStep` through React's closure, which depends on asynchronous rendering.
- Assistant.VisualLearningAssistant.BeginSubmit: the 500 ms wait after stopping a recording is not modelled. Neither are the chunks that arrive during that wait, which the stale `audioChunks` closure leaves out of the request. The fields are built from the chunks held when the handler starts.
- Disabled buttons (Send while loading, Previous on step 0, Next on the last step) are modelled by the handlers' own guards or left to callers. The model does not enforce that a second submit cannot start during the 500 ms recording grace period, before `isLoading` is set.
- Submission.FormFields: the audio blob's type `audio/webm` (line 93) and the file name `blob` that `FormData` gives it are not modelled. The `audio` field carries only the bytes.
- JSX rendering, `ReactMarkdown`, icons and styling are presentation.
- `formatDate` (Sessions.jsx, lines 7-9) calls the locale-dependent `Date.toLocaleString`, a foreign call.
- JavaScript numbers are modelled as unbounded integers. The indices involved stay far below 2^53.
