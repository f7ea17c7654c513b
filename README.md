# Telegram relay bot: reply formatter, history store and text handler

This project models the logic of a Telegram bot that relays each user's text
messages, together with that user's stored conversation, to a chat-completion
API and sends the answer back. It has three parts, one per concern of
`index.js`:

- **The reply formatter** `formatTextToItalic` (index.js:78-107). It runs four
  whole-string rewrites in order, one module each:
  - `Escaping`: a backslash goes in front of every `*`, `_`, backtick, `[` and `]`.
  - `Pairing`: the lazy, global `\\(.*?)\\` becomes `<i>$1</i>`. In JavaScript
    `.` excludes `\n`, `\r`, U+2028 and U+2029. So a backslash is closed by the
    nearest later backslash on its line, and a backslash without one stays.
  - `Collapsing`: every run of adjacent `<i>` tags becomes one.
  - `Balancing`: both tag counts are taken once. Then the first run of exactly
    "surplus" adjacent tags of the larger side is deleted, if such a run
    exists. A surplus spread over non-adjacent tags, closing or opening, is
    left in place.

  `Tags` holds what the last two steps share: occurrence, the global match
  count, the leftmost match, and deletion of the first match of `(tag){k}`.
  `Italic` chains the four steps.
- **The history store** (`History`, index.js:56-76). It keeps one record per
  user id. Loading fails safe to a transcript holding only the persona
  message. Saving overwrites the user's whole record.
- **The `'text'` handler** (`Relay`, index.js:109-164).
  - `Next` describes one turn as a function of the process state: the files,
    the module-level `responseCount` and the messages sent.
  - `Relay.Bot` is that state as a class. `OnText` updates it in place and is
    proved to agree with `Next`.
  - Lemmas over `Run` (a sequence of turns) state what the counter, the
    reminders and the transcripts do over time.
  - The completion call and the transport are not modelled. Each `TextEvent`
    carries what they returned: a failure, or the first choice's content
    (possibly absent). It also records whether the HTML reply and the
    reminder were accepted.

Notes on behaviour, where the code differs from what a reader might expect.
The model follows the code.

- The comment at index.js:99 says the extra opening tags are removed. In fact
  the collapse step has already merged every run of adjacent `<i>` tags. So a
  surplus of two or more opening tags never matches `(<i>){k}`, and nothing is
  removed. Only a surplus of exactly one removes anything, and then it removes
  the first `<i>`. `Balancing.BalanceSurplusOpening` and
  `Italic.FormatSurplusOpenings` state this. `Italic.FormatKeepsSurplusOpenings`
  gives a family of inputs, like `<i>a<i>b\c\`, whose three opening tags and
  one closing tag all survive.
- An already-escaped asterisk keeps its asterisk, but its backslash becomes an
  empty italic span. For example, `a \*hi\* b` becomes
  `a <i></i>*hi<i></i>* b`: the input's backslash and the one the escape step
  inserts after it form an empty match (`Italic.FormatEscapedStars`).
- `*bold*` becomes `<i>*bold</i>*`, because the two inserted backslashes
  delimit a match (`Italic.FormatStarred`).

## Model

| member | source | states |
|---|---|---|
| Tags.FirstAt | index.js:95-96 | the match of a non-global pattern is its leftmost occurrence; with no result, the pattern occurs nowhere |
| Tags.FirstAtIsLeftmost | index.js:96 | an occurrence with none before it is exactly the one the non-global replace finds |
| Tags.CountFits | index.js:89-90 | the global matches never overlap, so all of them together fit inside the string |
| Tags.CountPositiveOccurs | index.js:89-90 | the global match count is positive exactly when the pattern occurs, that is, when a leftmost match exists |
| Tags.CountSkipsPlain | index.js:89-90 | text that never holds the pattern's first character adds nothing to the global match count |
| Tags.CountLeadingMatch | index.js:89-90 | a match at the front is counted once, and counting resumes after it (non-overlapping matches) |
| Tags.CountOpenSkipsClose | index.js:89 | a `</i>` holds no `<i>` for the opening-tag count |
| Tags.CountCloseSkipsOpen | index.js:90 | an `<i>` holds no `</i>` for the closing-tag count |
| Tags.Repeat | index.js:95 | the `(tag){k}` pattern is k copies of the tag, so it is k times the tag's length |
| Tags.DeleteFirst | index.js:96 | replacing the first match with "" cuts out the leftmost occurrence and keeps both sides; with no occurrence the string is unchanged |
| Tags.DeleteFirstAt | index.js:96 | deleting at the leftmost occurrence i gives the text before i followed by the text after the match |
| Escaping.Escape | index.js:80 | the output is longer by exactly the number of special characters, and every special character in it has a backslash right before it |
| Escaping.UnescapeEscape | index.js:80 | dropping each backslash that precedes a special character recovers the input exactly, existing backslashes included, in order |
| Escaping.EscapeAppend | index.js:80 | the global replace works character by character: escaping a concatenation escapes each part |
| Escaping.EscapePlain | index.js:80 | text with no special character is unchanged |
| Escaping.EscapePlainPrefix | index.js:80 | text with no special character passes through unchanged in front of the rest |
| Escaping.EscapeSpecialFirst | index.js:80 | a special character gets exactly one backslash in front of it |
| Pairing.LineEnd | index.js:83 | the first line terminator (`\n`, `\r`, U+2028, U+2029) that `.` cannot cross, or the end of the text |
| Pairing.CloseIndex | index.js:83 | the lazy `(.*?)\\` stops at the first backslash, provided it comes before the end of the line; otherwise no backslash is on the line |
| Pairing.Tokenize | index.js:83 | the scan accounts for the whole input: its pieces read back to the input exactly |
| Pairing.TokenizeSpansPlain | index.js:83 | every match's content holds no backslash and no line terminator |
| Pairing.TokenizeSkipsUnclosed | index.js:83 | every backslash left in place has no partner after it on its line |
| Pairing.Pair | index.js:83 | the replace never shortens the text |
| Pairing.PairLength | index.js:83 | the result is longer than the input by exactly five characters per match: two backslashes become `<i>` and `</i>` |
| Pairing.RenderAppend | index.js:83 | the replacement is written piece by piece: each match as `<i>`, content, `</i>` and every other character as itself |
| Pairing.PairPlainStep | index.js:83 | a character other than a backslash is copied unchanged |
| Pairing.PairPlainPrefix | index.js:83 | text before the first backslash is copied unchanged |
| Pairing.CloseIndexAfterPlainLine | index.js:83 | after one line of text without backslashes, the next backslash closes the match |
| Pairing.PairLeadingMatch | index.js:83 | a backslash, one line of plain text and a backslash become exactly `<i>`, that text, `</i>`, followed by the pair step of the rest |
| Collapsing.DropOpenings | index.js:86 | taking off a leading run of `<i>` tags leaves a string that does not begin with `<i>` |
| Collapsing.DropOpeningsRun | index.js:86 | what the leading run takes off is a whole number of `<i>` tags, and the rest is kept |
| Collapsing.Collapse | index.js:86 | collapsing never makes the string longer |
| Collapsing.CollapseRun | index.js:86 | two adjacent `<i>` collapse exactly as one does |
| Collapsing.CollapseRunOfOpenings | index.js:86 | a run of one or more `<i>` followed by text that does not begin with `<i>` becomes a single `<i>` followed by the collapse of that text |
| Collapsing.CollapseKeepsHead | index.js:86 | the first three characters are never changed |
| Collapsing.CollapseNoAdjacent | index.js:86 | after the replace no two `<i>` tags are adjacent anywhere |
| Collapsing.CollapseFixpoint | index.js:86 | a string with no adjacent `<i>` tags is left as it is |
| Collapsing.CollapseIdempotent | index.js:86 | applying the replace a second time changes nothing |
| Collapsing.CollapsePlainStep | index.js:86 | a character that does not begin `<i>` is copied |
| Collapsing.CollapsePlainPrefix | index.js:86 | text without `<` is copied unchanged |
| Collapsing.CollapseLoneOpening | index.js:86 | a single `<i>` not followed by another stays a single `<i>` |
| Collapsing.CollapseClosing | index.js:86 | a `</i>` is copied unchanged |
| Balancing.Balance | index.js:89-104 | the result is never longer than the input; with equal tag counts the string is returned unchanged |
| Balancing.BalanceClosingSide | index.js:89-97 | more closing tags: only the surplus run of `</i>` is deleted, and the opening-tag branch does not run |
| Balancing.BalanceOpeningSide | index.js:89-104 | more opening tags: only the surplus run of `<i>` is deleted, and the closing-tag branch did not run |
| Balancing.BalanceSurplusClosing | index.js:92-97 | k more closing tags: the leftmost run of exactly k `</i>` is deleted; with no such run the string is unchanged |
| Balancing.RunOfOpeningsHasPair | index.js:102 | a run of two or more `<i>` begins with two adjacent `<i>` tags |
| Balancing.BalanceSurplusOpening | index.js:99-104 | with no adjacent `<i>` tags, a surplus of two or more opening tags removes nothing, and a surplus of one removes exactly the first `<i>` |
| Italic.FormatTextToItalic | index.js:78-107 | text with no special character, backslash or `<` is returned unchanged |
| Italic.FormatSurplusOpenings | index.js:78-107 | what reaches the balancing step has no adjacent `<i>`; a surplus of two or more opening tags returns it unchanged, and a surplus of one removes its first `<i>` |
| Italic.FormatStarred | index.js:78-107 | `*t*`, for text t that no step touches, becomes `<i>*t</i>*` |
| Italic.FormatEscapedStars | index.js:78-107 | `a\*t\*b` becomes `a<i></i>*t<i></i>*b` |
| Italic.FormatKeepsSurplusOpenings | index.js:86-104 | `<i>a<i>b\c\` becomes `<i>a<i>b<i>c</i>`, with two more opening than closing tags left in the output |
| History.Load | index.js:56-70 | the stored transcript when the record exists and parses; a fresh transcript holding only the persona message when it is missing or unreadable |
| History.Save | index.js:73-76 | the user's record is replaced by the whole transcript, and a load right after returns exactly it; the set of users gains this user and every other record is untouched |
| History.LoadAfterOtherSave | index.js:56-76 | saving one user's transcript does not change what another user loads |
| History.SaveOverwrites | index.js:73-76 | the last save for a user wins |
| History.LoadSeeded | index.js:56-70 | while every stored transcript starts with the persona message, every load does too, whether the record exists, is unreadable or is missing |
| History.SaveSeeded | index.js:73-76 | saving a transcript that starts with the persona message keeps every record starting with it |
| Relay.ReplyText | index.js:131 | an absent or empty completion is replaced by the fixed fallback sentence; any other content is used as it is |
| Relay.Sends | index.js:153-163 | the reply is sent as HTML; after the counter reaches a multiple of ten the reminder follows it; a rejected send is followed by the apology instead |
| Relay.Answered | index.js:139-160 | a completed turn increments the counter by one and saves the loaded transcript plus the user's message and the formatted reply; every other user's record is unchanged; a reminder is sent exactly when the new count is a multiple of ten and both sends succeed |
| Relay.Next | index.js:117-164 | a failed completion sends the apology and changes neither the files nor the counter; a reminder goes out only on a completed turn whose new count is a multiple of ten and whose two sends both succeed |
| Relay.AnsweredFirstSend | index.js:153 | what a completed turn sends comes after everything sent before, and starts with the formatted reply, or with the apology when the reply was rejected |
| Relay.RunCountsCompletions | index.js:109-142 | the counter grows by exactly the number of completed turns |
| Relay.RunReminders | index.js:142-160 | reminders are sent at most once per multiple of ten the counter reaches, and exactly once per multiple when every turn completes and every send succeeds |
| Relay.NoReminderBeforeTenthResponse | index.js:109-160 | from start-up, the first nine turns send no reminder |
| Relay.RunLeavesOtherUsers | index.js:117-151 | turns of other users never touch a user's record |
| Relay.RunGrowsTranscript | index.js:117-151 | over a run of one user's completed turns, each turn adds exactly two messages to what that user loads, and what was there before is kept as a prefix |
| Relay.AnsweredKeepsSeeded | index.js:117-151 | a completed turn saves a transcript that still starts with the persona message |
| Relay.NextKeepsSeeded | index.js:117-164 | one turn keeps every stored transcript starting with the persona message, so every later load starts with it |
| Relay.RunKeepsSeeded | index.js:109-164 | over any run of turns, every transcript keeps starting with the persona message |
| Relay.Bot.constructor | index.js:109 | at start-up the counter is zero and nothing has been sent |
| Relay.Bot.OnText | index.js:112-164 | one call of the handler changes the files, counter and sent messages exactly as `Next` describes |
| Relay.Bot.Answer | index.js:139-160 | the completed part of the handler (format, increment, push, save, send) changes the state exactly as `Answered` describes |

## Left out

- Telegram transport (index.js:13, 153, 157, 163, 168): sends are recorded as `Outgoing` values with their parse mode. How Telegram renders HTML or MarkdownV2, and why it rejects a message, are not modelled; the event says whether each send went through.
- The chat-completion call (index.js:10, 126-129) is a foreign network API. Its result is part of the event.
- The `JSON.stringify` of non-string content (index.js:134-136) is not modelled; a completion's content is a string or absent.
- The JSON encoding of history files is treated as lossless. A file that parses to something other than an array would make the push at index.js:120 throw outside the `try`; such files are not modelled.
- The persona prompt's wording (index.js:20-45) is an uninterpreted constant.
- Directory creation, file naming and logging (index.js:51-53, 57, 63, 74, 162) are environment setup.
- The Express server and its routes (index.js:171-193) do no processing.
- Handlers run one at a time. Concurrent turns racing on the same file are not modelled.
- A failed file write in `saveUserHistory` is not modelled. It would reach the `catch` after the counter was already incremented.
- A failed apology send (index.js:163) is not modelled. It escapes the handler.
- `responseCount` is a JavaScript number, exact only up to 2^53. The model uses an unbounded counter.
- Strings are sequences of Unicode characters, not UTF-16 code units. Every character the formatter tests for is a single code unit, so this does not change its result.
- Pairing.Pair: the property that each replacement adds exactly one `<i>` and one `</i>` is stated piece by piece (`RenderAppend`, `Tokenize`) and as a length (`PairLength`), not as a tag count over the whole string.
- Relay.RunKeepsSeeded: the persona-first invariant is proved from a state whose stored transcripts already start with the persona message. History files found on disk at start-up are not checked for this.
