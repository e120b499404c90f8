# Patient dashboard: glossary, chat message store and API-key extraction

This project models the three pieces of logic in the patient dashboard that
can be stated precisely, and proves properties of them in Dafny.

- **Glossary table and CSV row selection** (`server/ai_calls.py`), in `ai_calls.dfy`.
  The module-level dictionary `glossary` is modelled by the class
  `GlossaryTable`, whose field `entries` is a `map`. It holds:
  - `AddToGlossary`, a first-write-wins insert;
  - `GetGlossaryValue`, a lookup returning `None` for an absent term;
  - `ReadArticle`, the row loop of `readArticle`, calling `AddToGlossary`.

  `FindArticles` is the row loop of `findArticles`. Both loops start from
  the rows that `csv.reader` yields. They share one selection rule, specified
  by the function `Selected`:
  - a row is used only when its index is above 1 and it has at least two columns;
  - its first two columns are whitespace-stripped;
  - any further columns are ignored.

  `Strip` is Python's `str.strip()`. It uses the exact set of characters
  for which `str.isspace` holds.
- **Chat message store** (`client/frontend/src/components/AiChat.tsx`), in
  `ai_chat.dfy`. The component state (`messages`, `isLoading`) is the class
  `ChatView`. `handleSubmit` is split at its first `await`, the one on
  `fetch` (`AiChat.tsx:53`):
  - `BeginSubmit` raises the flag, appends the user message and builds the
    `FormData` fields;
  - `Settle` stands for everything after that `await`, including the second
    one on `response.json()` (`AiChat.tsx:63`): it appends the one assistant
    message (the `try` or `catch` path) and clears the flag (the `finally`
    block);
  - `HandleSubmit` runs both.

  The network round trip is an input of type `Settlement`:
  - `Rejected` stands for any throw inside the `try` block that its `catch`
    handles: `fetch` rejecting, `response.json()` failing to parse, or
    reading `data.reply` when the body is the JSON literal `null` (a 2xx
    response with body `null` is therefore `Rejected`, not
    `Responded(true, None)`, and shows the failure text);
  - `Responded(ok, reply)` is a response whose body, when parsed, is not
    `null`, with the `reply` field of that body. `reply` is `None` when the
    field is absent or holds a falsy value that is not a string (`null`,
    `false`, `0`); `||` replaces all of these with the no-reply text, as it
    does the empty string.

  `SubmissionFor` is the guard of the `ai-message` event handler.
  `OnAiMessage` applies that guard and then submits.
- **API-key extraction** (`server/API_KEY.js`), in `api_key.dfy`. The regular
  expression `API_KEY\s*=\s*["']([^"']+)["']` becomes a deterministic matcher
  at one position (`MatchAt`). The leftmost match is `FirstMatchFrom`, and
  `ExtractKey` returns `''` when nothing matches. `MatchShape` and `Matches`
  state the pattern declaratively, as the regular expression reads, and
  `MatchAtExact` proves that the matcher agrees with them in both directions.
  Because each class in the pattern is followed by a character that the class
  cannot match, each position has at most one match. `\s` is the exact
  ECMAScript WhiteSpace and LineTerminator set.

The code and its comments disagree in one place, and the model follows the
code. At `server/ai_calls.py:23` and `:52` the comment says the header row is
skipped, but the guard `i > 1` skips rows 0 and 1. `HeaderRowsIgnored` states
that both rows never contribute.

## Model

| member | source | states |
|---|---|---|
| `AiCalls.IsPySpace` | server/ai_calls.py:24-25 | the characters Python's argument-less `strip()` removes: U+0009-U+000D, U+001C-U+0020, U+0085, U+00A0, U+1680, U+2000-U+200A, U+2028, U+2029, U+202F, U+205F and U+3000; the Strip lemmas below are stated over it |
| `AiCalls.Strip` | server/ai_calls.py:24-25 | `str.strip()`; characterised by `StripResultStripped`, `StripRemovesOnlyEdgeSpace` and `StripStripped` below |
| `AiCalls.StripResultStripped` | server/ai_calls.py:24-25 | what `strip()` returns has no whitespace at either end |
| `AiCalls.StripRemovesOnlyEdgeSpace` | server/ai_calls.py:24-25 | `strip()` returns a contiguous part of its input, and what it removes before and after that part is all whitespace |
| `AiCalls.StripStripped` | server/ai_calls.py:53-54 | stripping text with no whitespace at its ends returns it unchanged |
| `AiCalls.Qualifies` | server/ai_calls.py:52 | the row guard `i > 1 and len(row) >= 2`, with `i` a row index; `QualifyingIndices` and `HeaderRowsIgnored` below state which rows pass it |
| `AiCalls.Selected` | server/ai_calls.py:51-55 | the `(stripped first column, stripped second column)` pairs of the qualifying rows, in row order; it is what both loops (`readArticle` at lines 22-26, `findArticles` here) walk; characterised by `SelectedByIndex`, `SelectedStripped`, `SelectedDependsOnlyOnQualifyingColumns` and `HeaderRowsIgnored` below |
| `AiCalls.SelectedStripped` | server/ai_calls.py:51-55 | every selected name/URL or term/definition carries no leading or trailing whitespace |
| `AiCalls.QualifyingIndices` | server/ai_calls.py:52 | the indices of rows passing `i > 1 and len(row) >= 2`, strictly increasing, each qualifying and every qualifying index present |
| `AiCalls.SelectedByIndex` | server/ai_calls.py:49-56 | the selection has one pair per qualifying row, in row order; the k-th pair is the stripped first and second column of the k-th qualifying row |
| `AiCalls.SelectedDependsOnlyOnQualifyingColumns` | server/ai_calls.py:51-55 | two row lists with the same qualifying rows and the same stripped first two columns there give the same selection, so rows 0 and 1, short rows and extra columns never contribute |
| `AiCalls.HeaderRowsIgnored` | server/ai_calls.py:22-23 | replacing rows 0 and 1 by anything leaves the selection unchanged |
| `AiCalls.Insert` | server/ai_calls.py:29-31 | the key set grows by exactly the term; no existing definition changes; a new term maps to the given definition |
| `AiCalls.InsertAll` | server/ai_calls.py:22-26 | the glossary after `addToGlossary` is called on each pair in order; characterised by `InsertAllKeeps` and `InsertAllFirstWins` below, and equal to what `GlossaryTable.ReadArticle` leaves |
| `AiCalls.InsertAllKeeps` | server/ai_calls.py:29-31 | after any series of inserts the key set is the old keys plus the inserted terms, and every old definition is unchanged |
| `AiCalls.InsertAllFirstWins` | server/ai_calls.py:29-31 | for a term not present before, the stored definition is that of its earliest pair |
| `AiCalls.ReadArticleFirstRowWins` | server/ai_calls.py:22-26 | `readArticle` stores, for a new term, the stripped definition of the earliest qualifying row naming it |
| `AiCalls.StoresStripped` | server/ai_calls.py:29-31 | inserting pairs without surrounding whitespace into such a glossary keeps every term and definition free of it |
| `AiCalls.ReadArticleStoresStripped` | server/ai_calls.py:22-26 | after `readArticle`, every stored term and definition carries no surrounding whitespace, given a glossary already so |
| `AiCalls.ReadArticleNeverAddsUnnamed` | server/ai_calls.py:22-26 | a term absent before and named by no qualifying row is still absent afterwards |
| `AiCalls.GlossaryTable.constructor` | server/ai_calls.py:6 | the glossary starts empty |
| `AiCalls.GlossaryTable.AddToGlossary` | server/ai_calls.py:29-31 | a present term leaves the glossary unchanged; a new term is added with its definition; afterwards `GetGlossaryValue(term)` gives the stored definition, and every other term's value is unchanged |
| `AiCalls.GlossaryTable.GetGlossaryValue` | server/ai_calls.py:33-34 | `None` exactly when the term is absent, otherwise its definition |
| `AiCalls.GlossaryTable.ReadArticle` | server/ai_calls.py:22-26 | the loop leaves the glossary equal to the old one with every selected pair inserted first-write-wins, in row order |
| `AiCalls.FindArticles` | server/ai_calls.py:49-56 | the loop returns exactly the selected pairs |
| `ApiKey.IsJsSpace` | server/API_KEY.js:10 | the characters JavaScript's `\s` matches: U+0009-U+000D, U+0020, U+00A0, U+1680, U+2000-U+200A, U+2028, U+2029, U+202F, U+205F, U+3000 and U+FEFF; `SkipSpaces` is stated over it |
| `ApiKey.MatchAt` | server/API_KEY.js:10 | the regular expression tried at one start position, taking each class greedily; characterised by `MatchAtSound`, `MatchAtComplete`, `MatchAtExact` and `MatchAtShape` below |
| `ApiKey.SkipSpaces` | server/API_KEY.js:10 | greedy `\s*`: every skipped character is whitespace and the one it stops at is not |
| `ApiKey.SkipNonQuotes` | server/API_KEY.js:10 | greedy `[^"']*`: no skipped character is a quote and the one it stops at is |
| `ApiKey.MatchAtSound` | server/API_KEY.js:10 | whatever the matcher returns at a position is a capture of the pattern there |
| `ApiKey.MatchAtComplete` | server/API_KEY.js:10 | any way the pattern can match at a position is found by the matcher, with the same capture |
| `ApiKey.MatchAtExact` | server/API_KEY.js:10 | the matcher returns `key` at a position if and only if the pattern matches there capturing `key` |
| `ApiKey.FirstMatchFrom` | server/API_KEY.js:10 | returns nothing exactly when no position matches; otherwise the capture at a matching position before which none matches |
| `ApiKey.ExtractKey` | server/API_KEY.js:10-11 | `apiKeyMatch ? apiKeyMatch[1] : ''`; characterised by `ExtractKeyEmpty`, `ExtractKeyLeftmost` and `ExtractKeyShape` below |
| `ApiKey.ExtractKeyEmpty` | server/API_KEY.js:10-11 | the key is `''` if and only if the pattern matches at no position |
| `ApiKey.ExtractKeyLeftmost` | server/API_KEY.js:10-11 | the key is the capture at the leftmost matching position |
| `ApiKey.MatchAtShape` | server/API_KEY.js:10 | a capture contains no quote and is followed in the text by a quote |
| `ApiKey.ExtractKeyShape` | server/API_KEY.js:10-11 | a non-empty key contains no `"` or `'` and is followed in the text by a quote character |
| `ApiKey.ExtractKeyOfAssignment` | server/API_KEY.js:10 | `API_KEY`, any whitespace (none included), `=`, any whitespace, any quote, key, any quote: the key is read, also after a prefix such as `GEMINI_` |
| `ApiKey.MismatchedQuotes` | server/API_KEY.js:10 | `API_KEY = "abc'` yields `abc`: the two quotes need not agree |
| `ApiKey.LongerIdentifier` | server/API_KEY.js:10 | `GEMINI_API_KEY="xyz"` yields `xyz`: the name is not anchored |
| `ApiKey.ModuleExports` | server/API_KEY.js:14-18 | `GEMINI_API_KEY` and `MAPS_API_KEY` always equal `API_KEY`, the extracted key |
| `AiChat.UserMessage` | client/frontend/src/components/AiChat.tsx:37-42 | the optimistic user message: role `user`, the submitted text, and `{name, type}` of the file only when one is given; `ConversationShape` and `ChatView.BeginSubmit` state this of every appended user message |
| `AiChat.ReplyText` | client/frontend/src/components/AiChat.tsx:58-84 | never empty; the fixed failure text on a non-ok status or any throw; a non-empty reply on success; the fixed no-reply text on a success with a missing or empty reply; a success shows the failure text only if the server sent that text |
| `AiChat.AssistantMessage` | client/frontend/src/components/AiChat.tsx:65-84 | the assistant message of either the `try` path or the `catch` path, with `ReplyText` of the outcome and no attachment; `ConversationShape` and `ChatView.Settle` state this of every appended assistant message |
| `AiChat.Conversation` | client/frontend/src/components/AiChat.tsx:34-88 | the message list after a series of completed `handleSubmit` calls from an empty list; each step appends the same two-message `Exchange` that `ChatView.HandleSubmit` appends; characterised by `ConversationShape` and `ConversationGrows` below |
| `AiChat.Replay` | client/frontend/src/components/AiChat.tsx:34-88 | a fresh panel after one completed `handleSubmit` per entry of the history, in order, holds exactly `Conversation` of that history and is not loading, so `ConversationShape` and `ConversationGrows` hold of the panel's list |
| `AiChat.ConversationShape` | client/frontend/src/components/AiChat.tsx:37-84 | k completed submissions give 2k messages; the k-th one contributes its user message and then exactly one assistant message; the user message has the submitted text, and carries `{name, type}` exactly when a file was given |
| `AiChat.ConversationGrows` | client/frontend/src/components/AiChat.tsx:43-84 | the message list is append-only: the list after fewer submissions is a prefix of the list after more |
| `AiChat.BuildForm` | client/frontend/src/components/AiChat.tsx:47-50 | `message` always comes first; `file` is present exactly when a file is given, with that file; `isEli5` is present exactly when the flag is true, with the text `"true"`; no field appears twice and no other field appears |
| `AiChat.SubmissionFor` | client/frontend/src/components/AiChat.tsx:21-27 | no submission exactly when the detail is missing or its message is missing or empty; otherwise the detail's message, file and flag are submitted unchanged |
| `AiChat.ChatView.constructor` | client/frontend/src/components/AiChat.tsx:17-18 | the panel starts with no messages and not loading |
| `AiChat.ChatView.BeginSubmit` | client/frontend/src/components/AiChat.tsx:34-50 | `isLoading` is true; exactly the user message is appended, with the submitted text and the attachment metadata only if a file was given; the form is `BuildForm` of the arguments |
| `AiChat.ChatView.Settle` | client/frontend/src/components/AiChat.tsx:58-87 | exactly one assistant message, holding `ReplyText` of the outcome, is appended; `isLoading` is false on every path |
| `AiChat.ChatView.HandleSubmit` | client/frontend/src/components/AiChat.tsx:34-88 | exactly the user message and then the assistant message are appended, so the old list is a prefix and the length grows by 2; `isLoading` ends false |
| `AiChat.ChatView.OnAiMessage` | client/frontend/src/components/AiChat.tsx:21-27 | a rejected event changes nothing and sends nothing; an accepted one performs `HandleSubmit` with the detail's message, file and flag |

## Left out

- The Gemini client and its `generate_content` calls (`server/ai_calls.py:5`, `:9-12`, `:37-40`) are foreign calls. The model starts from the rows their answer yields.
- `csv.reader` over `StringIO` (`server/ai_calls.py:16-19`, `:44-47`) is library CSV parsing. The rows are taken as already split.
- The `print` calls and the `__main__` driver (`server/ai_calls.py:27`, `:58-72`) are output only. The insertion order of the dictionary's keys is visible only through that `print`, and a `map` does not record it.
- `fetch`, the multipart transport and JSON parsing (`AiChat.tsx:53-63`) are network I/O. They are replaced by the `Settlement` input. Every way the `try` block can throw, including the `TypeError` of reading `data.reply` (`AiChat.tsx:69`) from a `null` body, is folded into `Rejected`. Which bodies throw is not derived by the model.
- A JSON `reply` that is a truthy non-string (a non-zero number, `true`, an object or an array) is not modelled. `||` would pass it through as the message content. Falsy non-strings are modelled as `None`.
- `Date.now()` message ids (`AiChat.tsx:38`, `:66`, `:79`) are clock-derived. Messages carry no id.
- `console.error` (`AiChat.tsx:75`) is diagnostic output.
- The `addEventListener`/`removeEventListener` lifecycle and all rendering (`AiChat.tsx:30-31`, `:90-122`) are left out.
- Overlapping submissions are left out. In the component, async callbacks of several submissions may interleave between `BeginSubmit` and `Settle`. The model proves properties of each submission as one step, and of series of completed submissions.
- `fs.readFileSync` and path joining (`server/API_KEY.js:6-7`) are file I/O. Extraction starts from the file's text.
- JavaScript strings are UTF-16 code units, but the model uses Unicode scalar values. A key holding characters outside the Basic Multilingual Plane is captured the same way, but counted differently.
- ExtractKeyOfAssignment: requires the text before the name to contain no `A`. This is a simple sufficient condition for "no earlier match starts there". `ExtractKeyLeftmost` states the general case.
- client/frontend/src/components/HomeDashboard.tsx is not part of this model. It holds layout, fixed data, and a second fetch wrapper that reads `data.response` and always sends `isEli5`.
- client/frontend/src/components/LoginPage.tsx is not part of this model. It is form glue around a login request whose outcome only raises alerts.
