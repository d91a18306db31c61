# StartIt AI chat transcript, modelled in Dafny

StartIt AI is a one-page Streamlit app. It passes what the user types to a Gemini chat session and shows
the exchange as a list of message boxes, newest first. The logic worth modelling is the bookkeeping
around that call. This project models it:

- the chat handle and the history list are created only when the session does not yet hold them;
- an accepted submission appends the user's turn `("You", input)` and then the assistant's turn
  `("StartIt AI", reply)`;
- the reply is the response text stripped of surrounding whitespace, or
  `"Error from Gemini API: " + str(e)` when the call raises;
- the display loop walks the even positions of the history from the last to the first. Each box
  shows the entry there and the entry after it, or `""` when none follows;
- the sample chart is drawn when `"graph"` occurs in the lower-cased input.

Files:

- `text.dfy` (module `Text`): `str.strip()`, `str.lower()`, the `in` substring test and the graph hint.
- `gemini.dfy` (module `Gemini`): the outcome of the remote call, and `Reply`, the text recorded from it.
- `transcript.dfy` (module `Transcript`): history entries and the well-formedness invariant. It holds the
  submission step as a function, a fold over many submissions, and the display order.
- `session.dfy` (module `Session`): class `SessionState` with the two session fields. Its methods are the
  lazy initialisers, the submission block, the display loop, and `Rerun`, which is one run of the page
  script in source order.

The remote call is foreign, so it enters as a parameter. `Outcome` is either `Replied(text)`, the
response's `text`, or `Raised(message)`, the `str(e)` of the exception. The handle that `start_chat` would create
is also a parameter of `Rerun`. Imperative parts of the source are modelled as imperative Dafny: the
session fields are class fields, the appends are updates of `chatHistory`, and the display loop is a
`while` loop over a decreasing index. Each method is proved against a function (`AfterSubmit`,
`Display`), and the lemmas about those functions state the properties.

Three behaviours of the code worth knowing:

- The input test at line 179 is Python truthiness, not emptiness after trimming. A whitespace-only input
  such as `"   "` is therefore recorded (`WhitespaceInputIsRecorded`).
- The graph test at line 200 reads the current value of the text input on every run of the page, whether
  or not the form was submitted (`Rerun`'s `showGraph`). It is a plain substring test, so `"graph"` inside
  a longer word such as `"photographs"` also triggers the chart (`GraphHintInsideWord`).
- When the history is well formed, the display never uses its `""` fallback (`DisplayWellFormed`). A
  box's reply can still be empty, because a response consisting only of whitespace strips to `""`.

## Model

| member | source | states |
|---|---|---|
| `Text.LeadingSpaces` | startitai_app.py:165 | the count of leading characters `strip` removes: all of them are whitespace, and the next character, if any, is not |
| `Text.TrailingSpaces` | startitai_app.py:165 | the count of trailing characters `strip` removes: all of them are whitespace, and the character before them, if any, is not |
| `Text.StripIsTrimmed` | startitai_app.py:165 | `Strip(s)` is a window `s[a..b]`: everything outside it is whitespace, and a non-empty window starts and ends with non-whitespace |
| `Text.TrimmedIsStrip` | startitai_app.py:165 | every such trimmed window equals `Strip(s)`, so the characterisation fixes the result uniquely |
| `Text.StripEdges` | startitai_app.py:165 | a non-empty stripped text has no whitespace at either end |
| `Text.StripIdempotent` | startitai_app.py:165 | stripping twice gives the same text as stripping once |
| `Text.ContainsIff` | startitai_app.py:200 | Python's `pat in s` as modelled holds exactly when `pat` occurs at some position of `s` (both directions) |
| `Text.GraphHintIff` | startitai_app.py:200 | the graph hint holds exactly when five consecutive input characters lower-case to `"graph"` (both directions) |
| `Text.GraphHintOnRequest` | startitai_app.py:200 | `"show me a graph please"` triggers the chart |
| `Text.GraphHintUpperCase` | startitai_app.py:200 | the test ignores case: `"Plot a GRAPH"` triggers the chart |
| `Text.NoGraphHintOnGreeting` | startitai_app.py:200 | `"hello"` does not trigger the chart |
| `Text.GraphHintInsideWord` | startitai_app.py:200 | the test is on substrings, so `"photographs"` triggers the chart |
| `Gemini.ReplyOnFailure` | startitai_app.py:166-167 | a raised call still yields a reply. The reply starts with `"Error from"`, and the exception message can be read back from it unchanged |
| `Gemini.ReplyOnSuccess` | startitai_app.py:164-165 | a successful call's reply is exactly the response text with its surrounding whitespace removed |
| `Gemini.ReplyOnSuccessIsStripped` | startitai_app.py:165 | a successful reply has no whitespace at either end, and stripping it again leaves it unchanged |
| `Gemini.ReplyExample` | startitai_app.py:165 | `"Talk to 10 customers."` is recorded unchanged; the same text with spaces and a newline around it is recorded without them |
| `Transcript.SubmitStep` | startitai_app.py:179-182 | a rejected submission leaves the history unchanged. An accepted one adds exactly two entries, `("You", input)` then `("StartIt AI", reply)`, and keeps the earlier entries as a prefix. Well-formedness (even length, "You" at even and "StartIt AI" at odd positions) is preserved |
| `Transcript.SpeakerLabels` | startitai_app.py:180-182 | in a well-formed history the entry at an even position carries the label `"You"` and the one at an odd position `"StartIt AI"`, the two labels being distinct |
| `Transcript.WhitespaceInputIsRecorded` | startitai_app.py:179 | `"   "` is accepted and recorded; `""` and an unsubmitted form change nothing |
| `Transcript.ReplayGrowth` | startitai_app.py:171-182 | after any series of runs, the history has grown by two entries per accepted submission. The old history is its prefix, and well-formedness holds throughout |
| `Transcript.FirstExchange` | startitai_app.py:171-182 | a fresh session that asks "How do I validate my idea?" and receives "Talk to 10 customers." holds exactly those two entries |
| `Transcript.FailedCallAddsTwo` | startitai_app.py:179-182 | a submission whose call raises still adds two entries, and the second starts with `"Error from"` |
| `Transcript.EvenDescending` | startitai_app.py:187 | the `m` even numbers `2(m-1), ..., 2, 0`, element `k` being `2(m-1-k)` |
| `Transcript.DisplayIndicesExact` | startitai_app.py:187 | `reversed(range(0, n, 2))` has `ceil(n/2)` elements. It contains exactly the even positions below `n`, in strictly decreasing order |
| `Transcript.DisplayWellFormed` | startitai_app.py:187-189 | on a well-formed history there is one box per exchange. Every box pairs a "You" entry with the "StartIt AI" entry after it, and the `""` fallback is never taken |
| `Transcript.DisplayOddTail` | startitai_app.py:189 | an unmatched trailing user entry is shown first, with `""` as its reply |
| `Transcript.DisplayAfterSubmit` | startitai_app.py:179-189 | newest first: after an accepted submission on an even-length history, the page shows the new exchange followed by the old boxes in their old order. A rejected submission shows the same boxes as before |
| `Session.SessionState.constructor` | startitai_app.py:146 | a new session holds neither the chat handle nor the history |
| `Session.SessionState.InitChat` | startitai_app.py:146-148 | the handle is stored only when absent; an existing handle is never replaced |
| `Session.SessionState.InitHistory` | startitai_app.py:170-171 | an empty history is stored only when absent; an existing history is never cleared; the invariant is kept |
| `Session.SessionState.Submit` | startitai_app.py:179-182 | the two in-place appends leave exactly the history `AfterSubmit` describes, and the invariant is kept |
| `Session.SessionState.Render` | startitai_app.py:187-189 | the index loop produces exactly `Display(history)`, the boxes in the order of `reversed(range(0, len, 2))` |
| `Session.SessionState.Rerun` | startitai_app.py:146-200 | one script run: lazy initialisation (the handle is kept once it is set), then the submission step, then display of the updated history. The graph hint depends on the input alone and does not touch the history |

## Left out

- Page styling, HTML markup and `st.markdown` rendering (lines 15-143, 185-197, 216): presentation only. User text is put into HTML without escaping, and there is no logic to verify there.
- Loading the API key, configuring the SDK, building the model and the persona prompt (lines 3, 8-9, 147-159): foreign calls. The handle is an opaque `ChatHandle` built from the model name and an identity. The persona text and the handle's internal message log are not modelled.
- `chat.send_message` (line 164): a foreign network call. Its result is the `Outcome` parameter. No retry, timeout or blocking is modelled.
- The sample sine chart, the text area and the `st.write` hint (lines 201-213): floating-point numerics and UI. Only the boolean that decides whether they appear is modelled.
- Streamlit's form, its rerun-on-interaction and `session_state` (lines 174-176): replaced by the fields of `SessionState` and explicit calls to `Rerun`. Concurrency between sessions is not modelled.
- `Text.Strip`: whitespace means the ASCII characters Python's `str.isspace()` accepts (codes 9-13 and 28-32). Non-ASCII whitespace such as U+00A0 or U+2003, which Python also strips, is not modelled.
- `Text.GraphHintIff`: case folding maps only `A`-`Z` to `a`-`z`. Python's full Unicode `str.lower()` (for example `İ` becoming two characters) is not modelled.
- `Gemini.ReplyOnFailure`: a successful response whose text itself begins with `"Error from Gemini API: "` cannot be told apart from a failure once recorded. The model states only that a failure's message can be read back, not that the two cases are distinguishable.
- Exceptions that are not `Exception` subclasses (line 166 catches only those) would leave a trailing unmatched user turn. The model treats every failure of the call as caught.
