# Chat view of a Gemini chat client, modelled in Dafny

The front end of this chat client has one component with real logic, the chat view
(`front/src/components/Chat.jsx`). This project models that logic and proves properties of it.
The view has two parts.

**Reply formatter.** `formatResponse` turns the text of a reply into a list of display elements:
- It splits the reply on `"\n"` and skips lines whose `trim()` is empty.
- Every other line becomes one element, tested in this order:
  - a heading (`<h3>`, with every `**` deleted) when the untrimmed line starts and ends with `**`;
  - a bullet when the trimmed line starts with `"* "`;
  - a numbered line when the line matches `^\d+\.\s`;
  - otherwise a paragraph.
- A flag `inList`, threaded through the lines, decides what a bullet becomes:
  - while the flag is off, a bullet is a list opener (a `<ul>` around one `<li>`) and turns the flag on;
  - while it is on, a bullet is a bare `<li>`.
- Numbered lines and paragraphs turn the flag off. Blank lines and headings leave it alone.
- Bullet, numbered and paragraph text goes through `renderWithBold`:
  - it splits the text with the capturing, lazy pattern `(\*\*.*?\*\*)`;
  - it shows each piece that starts and ends with `**` as bold text with every `**` deleted;
  - it shows every other piece as it is.

**Message list.** The view keeps three pieces of state:
- `messages`, the list of messages;
- `input`, the contents of the input box;
- `isLoading`, whether a request is in flight.

`sendMessage` does nothing when the input is blank or a request is in flight. Otherwise:
1. It appends the user's message.
2. It clears the input box and sets `isLoading`.
3. It posts the prompt and awaits the answer.
4. It appends the assistant's answer: the reply with its formatted elements, or `"Error: "` and the error's message.
5. It ends loading.

`clearChat` empties the list.

Layout:
- `js_text.dfy` holds the JavaScript string built-ins the code relies on:
  - `trim` and the ECMAScript white-space set;
  - `startsWith` and `endsWith`;
  - `split("\n")`;
  - `replace` with a string pattern, which removes the first occurrence only;
  - `replace(/\*\*/g, "")`.
- `bold.dfy` models `renderWithBold`. It states `split` with a capturing regular expression as ECMA-262 defines it in `RegExp.prototype[@@split]`:
  - the lazy `.*?` takes the shortest span;
  - `.` matches no line terminator;
  - `SplitsAs` describes the resulting pieces over the whole line, without the scan, and exactly one list of pieces fits it.
- `format.dfy` models `formatResponse` in two forms:
  - a fold, `Formatted`, which is the specification;
  - the methods `MapResponseLines` and `FormatResponse`, which run the `map` as a loop with a mutable flag the way the code does and are proved equal to the fold.
  - `FormattedLines` describes `Formatted` without the fold: which lines give elements, in what order, and under which flag.
- `chat.dfy` models the component state as the class `ChatView`.
  - `sendMessage` is asynchronous, so it is split at its `await` into `Send` and `Settle`.
  - `SendMessage` runs the two halves back to back. Other handlers may also run between them.
- `scenarios.dfy` works concrete lines and replies through the model.

The code differs in places from what the markup suggests, and the model follows the code:
- Consecutive bullets are not grouped into one list. The first bullet becomes a `<ul>` holding one `<li>`, and each later bullet is a sibling `<li>` outside it (`Scenarios.BulletsAreSiblings`).
- A heading or a blank line between bullets does not close the list (`Scenarios.HeadingKeepsListOpen`).
- A paragraph or numbered line does close it, so the next bullet opens a new one (`Scenarios.ParagraphClosesList`).
- A line that starts with bold text splits into an empty plain piece, the bold piece, and the rest (`Scenarios.LeadingEmptyFragment`).
- The heading test only looks at both ends of the line:
  - `**a** b **c**` is a heading titled `a b c`, not a paragraph with two bold words (`Scenarios.TwoBoldWordsAreHeading`);
  - `**` alone is an empty heading (`Scenarios.MarkerAloneIsHeading`).
- A request still in flight when the chat is cleared still delivers its answer. The answer lands alone in the emptied list (`Chat.ClearWhilePending`).

## Model

| member | source | states |
|---|---|---|
| JsText.TrimStart | front/src/components/Chat.jsx:37 | the result is a suffix of the input; what it dropped is all white space; it does not start with white space |
| JsText.TrimEnd | front/src/components/Chat.jsx:37 | the result is a prefix of the input; what it dropped is all white space; it does not end with white space |
| JsText.Trim | front/src/components/Chat.jsx:37 | `trim()` never lengthens the text and leaves no white space at either end |
| JsText.TrimEmptyIffAllSpace | front/src/components/Chat.jsx:37 | `Trim` is empty exactly when every character is white space: the blank-line test in both directions |
| JsText.TrimIdempotent | front/src/components/Chat.jsx:52 | trimming an already trimmed line changes nothing |
| JsText.TrimUnpadded | front/src/components/Chat.jsx:52 | a string that neither starts nor ends with white space is its own trim |
| JsText.TrimmedPrefix | front/src/components/Chat.jsx:52 | a prefix of the trimmed line, such as the bullet's `"* "`, is also a prefix of the line with only its leading white space removed |
| JsText.RemoveFirst | front/src/components/Chat.jsx:58 | `replace("* ", "")` removes at most one occurrence: the length is unchanged or drops by the pattern's length |
| JsText.RemoveFirstAt | front/src/components/Chat.jsx:58 | when the first occurrence is at k, the result is the string with exactly that occurrence cut out |
| JsText.RemoveMarkers | front/src/components/Chat.jsx:22 | `replace(/\*\*/g, "")` leaves no `**`, never lengthens the text, leaves text without `**` as it is, and keeps a first character that is not `*` |
| JsText.LeadingStars | front/src/components/Chat.jsx:22 | the length of the maximal run of `*` a string starts with |
| JsText.RemoveMarkersRun | front/src/components/Chat.jsx:22 | on a leading run of n stars the global replace keeps n % 2 of them and carries on right after the run |
| JsText.RemoveMarkersCollapses | front/src/components/Chat.jsx:22 | the global replace equals `CollapseStars`, a definition by runs: every character other than `*` is kept in order and every maximal run of n stars becomes n % 2 stars |
| JsText.SplitLines | front/src/components/Chat.jsx:32 | `split("\n")` gives at least one piece; no piece holds a line feed; joined with line feeds they give back the text |
| JsText.SplitNoLineFeed | front/src/components/Chat.jsx:32 | a first piece without a line feed, followed by a line feed and the rest, splits into that piece and the rest's pieces |
| JsText.SplitJoin | front/src/components/Chat.jsx:32 | splitting undoes joining, for pieces without line feeds |
| Bold.BoldSpanEndUnique | front/src/components/Chat.jsx:17 | at most one bold span (`**`, then no `**` and no line terminator, then `**`) starts at a given index |
| Bold.CloseFrom | front/src/components/Chat.jsx:17 | the lazy `.*?\*\*` scan ends at the first closing `**`, crossing no line terminator and no other `**`; it reports none only when every later `**` lies beyond a line terminator |
| Bold.MatchAt | front/src/components/Chat.jsx:17 | a match of the pattern at an index is a bold span starting there |
| Bold.MatchAtComplete | front/src/components/Chat.jsx:17 | every bold span starting at an index is the match found there, so the lazy match misses no span and is unique |
| Bold.NoMatchNoSpan | front/src/components/Chat.jsx:17 | the match at an index fails exactly when no bold span of the line starts there |
| Bold.SplitFromShape | front/src/components/Chat.jsx:17 | the pieces of the `@@split` loop `SplitFrom` are odd in number, rebuild the text end to end, and every odd-indexed piece is a bold span |
| Bold.SplitFromSplitsAs | front/src/components/Chat.jsx:17 | the split from a scan position fits `SplitsAs`, the description of the split over the whole line: each gap is text at none of whose indexes a span of the line starts, each capture is the span right after it, and the last piece runs to the end |
| Bold.GapsSpanFree | front/src/components/Chat.jsx:17 | the split fits `SplitsAs`, so no span of the whole line starts inside a gap, and each gap on its own contains no bold span |
| Bold.SplitsAsUnique | front/src/components/Chat.jsx:17 | at most one list of pieces fits `SplitsAs` from a position |
| Bold.SplitMarkerFree | front/src/components/Chat.jsx:17 | with no `**` from the scan position on, the rest of the text is one last piece |
| Bold.PartsShape | front/src/components/Chat.jsx:17 | the pieces `Parts` of the line: concatenated they give back the line; they are odd in number; odd pieces are bold spans and even pieces hold none; they fit `SplitsAs` over the whole line; a line without `**` is one piece |
| Bold.PartsUnique | front/src/components/Chat.jsx:17 | any list of pieces that fits `SplitsAs` for a line is that line's `Parts`: the description determines the split |
| Bold.SpanText | front/src/components/Chat.jsx:22 | deleting the markers from a bold span leaves exactly the text between its outer markers |
| Bold.ShowPartShape | front/src/components/Chat.jsx:18-26 | `ShowPart`, the `map` callback: a piece is bold exactly when it starts and ends with `**`, and its bold text holds no `**`; other pieces are shown unchanged; a bold span is shown as the text between its markers |
| Bold.ShowPartsAt | front/src/components/Chat.jsx:18-27 | `parts.map` (`ShowParts`) shows each piece in place and in order |
| Bold.RenderWithBoldShape | front/src/components/Chat.jsx:16-28 | `RenderWithBold`: a fragment is bold exactly when its piece starts and ends with `**`; a bold fragment's text has no `**`; other pieces pass through unchanged; every captured span shows its inner text in bold; a line without `**` is a single plain fragment |
| Format.DigitRun | front/src/components/Chat.jsx:73 | the greedy `\d+` takes the longest run of leading digits |
| Format.DigitRunIs | front/src/components/Chat.jsx:73 | any run of digits followed by a non-digit or the end is the run `DigitRun` finds |
| Format.NumberedIff | front/src/components/Chat.jsx:73 | `IsNumbered` holds exactly when some non-empty run of digits is followed by `.` and white space |
| Format.Classify | front/src/components/Chat.jsx:37-86 | the tests `IsBlank`, `IsHeading`, `IsBullet` and `IsNumbered` in the source's order; a line is classified blank exactly when it is all white space |
| Format.RenderLine | front/src/components/Chat.jsx:36-87 | the callback returns nothing (`null`) exactly for a blank line |
| Format.LineElement | front/src/components/Chat.jsx:40-86 | the precedence of heading, bullet, numbered line and paragraph; a heading's title has no `**`; a bullet is a list opener or a bare item by the flag, and its text is the line minus the `"* "` after its leading white space; numbered lines and paragraphs render the whole line |
| Format.BulletItemText | front/src/components/Chat.jsx:58 | on a bullet line, `replace("* ", "")` cuts out the `"* "` that follows the leading white space and keeps that white space |
| Format.NoBulletInSpace | front/src/components/Chat.jsx:58 | `"* "` does not occur within leading white space, so the first occurrence is the bullet's |
| Format.FormatLine | front/src/components/Chat.jsx:36-87 | the `map` callback run on one line returns that line's element and leaves the flag as the fold prescribes |
| Format.MapResponseLines | front/src/components/Chat.jsx:35-87 | the `map` as a loop with a mutable flag returns exactly the fold `MapWithFlag` over the lines |
| Format.FormatResponse | front/src/components/Chat.jsx:31-89 | split, loop and filter together return exactly `Formatted`, whose meaning `FormattedLines` states |
| Format.MapWithFlagStep | front/src/components/Chat.jsx:35-87 | one more line takes the fold one step further from where the prefix left it |
| Format.MapWithFlagAt | front/src/components/Chat.jsx:35-87 | the map `MapWithFlag` calls the callback once per line, in order, each time with the flag as the earlier lines left it |
| Format.FlagOfKinds | front/src/components/Chat.jsx:53-70 | the flag after a run of lines depends only on their kinds |
| Format.FlagIsOpenBefore | front/src/components/Chat.jsx:53-70 | the flag on arrival at a line is on exactly when an earlier line is a bullet and no numbered line or paragraph follows it, so headings and blank lines keep it |
| Format.MapWithFlagReference | front/src/components/Chat.jsx:35-87 | every entry of the map is the callback's result under the flag described without the fold |
| Format.MappedIsReference | front/src/components/Chat.jsx:35-87 | entry i of the mapped array is what line i renders to under the flag `OpenBefore` describes |
| Format.MappedBlank | front/src/components/Chat.jsx:37 | the mapped array has one entry per line, missing exactly at the blank lines |
| Format.PresentAt | front/src/components/Chat.jsx:88 | `filter(Boolean)` (`Present`) keeps exactly the entries that are there, in their order: its j-th result is the entry at the j-th index holding one |
| Format.PresentAtIndexes | front/src/components/Chat.jsx:88 | the j-th kept entry is the one at the j-th index holding an entry |
| Format.SomeIndexesOrdered | front/src/components/Chat.jsx:88 | the indexes holding an entry are in range and strictly increasing |
| Format.SomeIndexesComplete | front/src/components/Chat.jsx:88 | every index holding an entry is among them |
| Format.SomeIndexesOfLines | front/src/components/Chat.jsx:37-88 | entries missing exactly at the blank lines sit exactly at the non-blank lines' indexes |
| Format.NonBlankIndexesAt | front/src/components/Chat.jsx:37 | an index is listed as non-blank exactly when its line's trim is not empty |
| Format.PresentIsReference | front/src/components/Chat.jsx:35-88 | the filtered array holds, in line order, the rendering of each non-blank line under the flag `OpenBefore` describes |
| Format.FormattedLines | front/src/components/Chat.jsx:31-89 | `Formatted` has one element per line whose trim is not empty, in line order, and nothing for the other lines; each element is its line's rendering under the flag `OpenBefore` describes |
| Chat.Answer | front/src/components/Chat.jsx:104-113 | the answer is a well-formed assistant message: the reply with exactly its formatted elements, or `"Error: "` and the message; it has formatted content exactly when the request succeeded |
| Chat.ChatView.constructor | front/src/components/Chat.jsx:6-8 | no messages, an empty input, not loading |
| Chat.ChatView.SetInput | front/src/components/Chat.jsx:219-227 | typing replaces the input unless the box is disabled while loading; nothing else changes |
| Chat.ChatView.Send | front/src/components/Chat.jsx:91-97 | the guard `Accepts`: a blank input or a request in flight changes nothing; otherwise the input as typed is appended as a user message and sent as the prompt, and the box is cleared and loading starts |
| Chat.ChatView.Settle | front/src/components/Chat.jsx:99-116 | the answer `Answer` is appended to the list as it stands; loading ends; the input is kept; every message stays well formed |
| Chat.ChatView.SendMessage | front/src/components/Chat.jsx:91-117 | a refused send changes nothing; an accepted send grows the list by exactly the user message and the answer, keeps the earlier messages, and ends with an empty box and loading over |
| Chat.ChatView.ClearChat | front/src/components/Chat.jsx:119-121 | the list is empty whatever it held; the input and the loading state are untouched |
| Chat.ClearWhilePending | front/src/components/Chat.jsx:105-121 | clearing while a request is in flight does not cancel it: afterwards the list holds the answer alone |
| Scenarios.PartsOfLeadingBold | front/src/components/Chat.jsx:17 | `**Hi** there` splits into `""`, `**Hi**` and ` there` |
| Scenarios.LeadingEmptyFragment | front/src/components/Chat.jsx:17-27 | `**Hi** there` renders as an empty plain fragment, bold `Hi`, and plain ` there` |
| Scenarios.PlainBullet | front/src/components/Chat.jsx:52-67 | `* x`, for any character x that is not white space, is a list opener or a bare item holding `x`, by the flag, and sets the flag |
| Scenarios.PlainParagraph | front/src/components/Chat.jsx:70-86 | a one-character line that is neither white space nor a digit is a paragraph and clears the flag |
| Scenarios.BoldHeading | front/src/components/Chat.jsx:40-48 | `**t**` is a heading `t` and leaves the flag as it was |
| Scenarios.BulletsAreSiblings | front/src/components/Chat.jsx:52-67 | two bullets in a row give a list opener and a bare sibling item |
| Scenarios.HeadingKeepsListOpen | front/src/components/Chat.jsx:40-70 | a heading between two bullets does not close the list: the second bullet is a bare item |
| Scenarios.ParagraphClosesList | front/src/components/Chat.jsx:52-86 | a paragraph between two bullets closes the list: the second bullet opens a new one |
| Scenarios.MarkerAloneIsHeading | front/src/components/Chat.jsx:40-48 | a line that is just `**` is an empty heading |
| Scenarios.TwoBoldWordsAreHeading | front/src/components/Chat.jsx:40-48 | `**a** b **c**` is a heading titled `a b c` |

## Left out

- The POST to the back end (front/src/components/Chat.jsx:100-102) is network I/O. `Settle` takes its outcome as a parameter: the reply text, or the message of the error it threw.
- `formatResponse(res.data.reply)` when the response has no `reply` field is not modelled. The `split` on `undefined` throws, and the `catch` reports that error like a network error. The outcome type carries only a reply string or an error message.
- The JSX built for each element is not modelled: tags, `key` and `className` props, and the render tree (front/src/components/Chat.jsx:123-245). The model stops at the tagged element list and the bold/plain fragments that the tags would wrap. How `msg.formattedContent || msg.content` chooses what to show is not modelled either.
- The scroll effect (front/src/components/Chat.jsx:11-13) is a DOM side effect.
- Chat.ChatView.Send: the guard reads `input` and `isLoading` as they stood when the handler was rendered. Two sends fired before React re-renders would both pass the guard. The model runs handlers one at a time on the current state, so this race is not captured.
- Strings are sequences of characters. The `.` of the regular expression and `trim` are stated over single characters, so code points beyond the Basic Multilingual Plane are treated as one unit rather than two UTF-16 code units. No such character is white space, a line terminator or `*`, so the results do not depend on this.
- The back end (`back/controllers/geminiController.js`, `back/routes/geminiRoutes.js`), `front/src/App.jsx` and `front/src/components/ImageGenerator.jsx` are not part of this model. The back end only wraps an external SDK and routes requests. The other two are static layout and a network wrapper with a one-line guard.
