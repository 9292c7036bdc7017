# Azure AI Search UI — a verified model of its search logic

The application is a small web front end over an Azure AI Search index. Its
server exposes one POST search route. The route checks the request, builds
the options for the search backend, maps every backend record to a result
record, and turns a backend failure into a user-facing message. The browser
side is a single `SearchApp` object with several jobs:

- it keeps the result list of the last search and the current page, at
  fifty results a page;
- it renders the current page and the page navigation;
- it renders each result: link, document name, content with two highlight
  passes, key phrases, entity badges and scores.

The model has five modules:

- `Js` (`js.dfy`): the JavaScript behaviour the code relies on. This covers
  truthiness and `||` defaults, `trim`, `includes`, `join`, `slice` and
  `map`, ASCII case folding, and the regular-expression classes `\s` and
  `\b`.
- `Uri` (`uri.dfy`): `decodeURIComponent` as a partial function, following
  the Decode operation of ECMA-262 (section 19.2.6, URI handling functions).
  All `%XY` escapes are decoded, and UTF-8 is validated. `None` stands for
  the URIError.
- `SearchRoute` (`search_route.dfy`): the POST handler of `routes/search.js`.
  The backend is a function parameter from the query and the options to the
  records or an error message.
- `TextRender` (`text_render.dfy`): the text functions of `public/script.js`.
  These are `escapeHtml`, `escapeRegex`, `truncateText`, the global
  case-insensitive `replace` as a left-to-right scan, both highlight passes,
  term extraction and `getDocumentName`.
- `SearchAppClient` (`search_app.dfy`): the `SearchApp` class. Its fields
  are `allResults`, `currentPage` and `currentSearchQuery`, and it keeps the
  invariant `1 <= currentPage <= max(totalPages, 1)`. Its methods are
  `displayResults`, `displayCurrentPage`, `createPagination`, the Previous,
  Next and page-button handlers, `createResultHTML`, `highlightText` and
  `highlightSearchTerms`. Every rendering step returns a structured value
  (`PageView`, `NavControls`, `RenderedResult`) in place of DOM nodes or
  markup.

Where the code and the written design of the application disagree, the model
follows the code:

- The server rejects only a falsy query. A whitespace-only query reaches the
  backend (`SearchRoute.HandleSearch`).
- `top` has no lower clamp. `Num(-5)` gives `-5`, and only 0 or NaN give 300
  (`SearchRoute.ResolveTop`).
- The document name is cut at the last literal `/` and decoded after that.
  An encoded slash therefore appears in the shown name: `x/a%2Fb.pdf` is
  shown as `a/b.pdf` (`TextRender.EncodedSlashStaysInName`).
- Truncation works on escaped text and can cut a character reference
  (`TextRender.TruncationCanCutReference`).
- Sequential highlight passes can match inside tags inserted earlier
  (`TextRender.TermMatchesInsideInsertedTag`).
- Page buttons exist only for pages 1 to `totalPages`, and the handler does
  not clamp. `SearchApp.SelectPage` therefore requires a page in that range
  rather than clamping one outside it.

## Model

| member | source | states |
|---|---|---|
| Js.Lower | public/script.js:278 | `toLowerCase` on ASCII: same length, every character lower-cased on its own |
| Js.Contains | routes/search.js:125-132 | `includes`, as a left-to-right search: a prefix is always found, and nothing longer than the text is found |
| Js.ContainsAt | routes/search.js:125-132 | `includes` holds exactly when the substring occurs at some index |
| Js.Join | public/script.js:219 | `join` of one string is that string and of no strings the empty string |
| Js.JoinEmpty | routes/search.js:98 | with a non-empty separator, a join is empty exactly when there is nothing to join or one empty string |
| Js.Slice | public/script.js:112 | `slice(start, end)` clamps `end` to the length: the result is the sub-sequence from `start` to `min(end, n)`, empty when `start` is at or past that bound, with `max(0, min(end, n) - start)` elements |
| Js.MapSeq | public/script.js:114 | `map` keeps the length and applies the function at every index |
| Js.Trim | public/script.js:47 | `trim` never lengthens its input (its full shape is `TrimShape`) |
| Js.TrimShape | public/script.js:47-49 | `trim` gives the piece of the input that is left when white space, and only white space, is removed from both ends; the piece neither starts nor ends with white space |
| Js.TrimBlank | public/script.js:47-51 | the trimmed query is empty, and the search ignored, exactly when the input is all white space |
| Uri.Decode | public/script.js:298 | `decodeURIComponent` never produces more characters than it reads, and produces the empty string exactly from the empty string |
| Uri.DecodeWithoutPercent | public/script.js:298 | a segment without `%` decodes to itself |
| Uri.MalformedEscapeFails | public/script.js:297-301 | a `%` anywhere in the input that is not followed by two hex digits makes decoding throw, which sends `getDocumentName` to its catch branch |
| Uri.LoneContinuationFails | public/script.js:298 | an escaped continuation byte (0x80 to 0xBF) where a character should start makes decoding throw |
| Uri.TruncatedSequenceFails | public/script.js:298 | a UTF-8 lead byte whose continuation escapes are cut off by the end of the input makes decoding throw |
| Uri.DecodeEncodeAscii | public/script.js:298 | decoding undoes percent-encoding of ASCII text |
| Uri.DecodePlainPrefix | public/script.js:298 | a prefix without `%` is copied and decoding goes on after it, failing exactly when the rest fails |
| Uri.EscapedSlash | public/script.js:298 | `%2F` decodes to `/` |
| SearchRoute.ResolveTop | routes/search.js:72 | `top` never exceeds 300; absent gives the destructuring default 100 (line 53); NaN and 0 give 300; any other number n gives `min(n, 300)`, negatives included |
| SearchRoute.OptionsFor | routes/search.js:71-87 | the options carry the resolved `top`, the fixed highlight fields and the fixed ten-field select list; the four semantic members are all set (to `semantic`, the configuration name, `true` and the fixed field mapping) exactly when the configuration name is truthy, and none is set otherwise |
| SearchRoute.BuildSearchOptions | routes/search.js:71-87 | building the object and then adding the semantic members one by one gives exactly those options |
| SearchRoute.Content | routes/search.js:98 | content is a truthy `chunk`; otherwise the space-joined `text` array, or a scalar `text`; otherwise `''` |
| SearchRoute.ContentPriority | routes/search.js:98 | a truthy chunk always gives content; without one the content is empty exactly when `text` is missing, the empty string, the empty array or an array of one empty line |
| SearchRoute.Lines | routes/search.js:99-100 | `text` and `layoutText` are always lists: an array is kept element by element, any other value (a missing one too) becomes a one-element list |
| SearchRoute.TruthyScore | routes/search.js:107 | a reranker score is kept exactly when present and non-zero, otherwise it becomes null |
| SearchRoute.Normalize | routes/search.js:95-111 | a title defaults to `Untitled` and a url to `#`, so neither is empty; a present list is kept and a missing list becomes empty; scores, highlights, captions and the semantic answer pass through |
| SearchRoute.CollectResults | routes/search.js:91-112 | one canonical record per backend record, in backend order |
| SearchRoute.Classify | routes/search.js:124-133 | each category is chosen exactly when its marker pair occurs and no earlier pair does, in the order 403/Forbidden, 404/Not Found, 401/Unauthorized, timeout/ETIMEDOUT |
| SearchRoute.FirstMatch | routes/search.js:124-133 | a table lookup returns the category of a rule whose marker occurs while no earlier rule's marker does, and the generic case only when no rule matches |
| SearchRoute.ClassifyIsTableLookup | routes/search.js:124-133 | the if/else chain equals the first-match lookup over the priority table; the generic message is used exactly when no marker occurs |
| SearchRoute.HandleSearch | routes/search.js:51-140 | a falsy query gives 400 before the configuration is looked at; with a query but no client it gives 500; a backend failure gives 500 with the classified message and the raw message as details; otherwise every record is mapped in order and `count == totalResults == results.length` |
| TextRender.EscapeHtml | public/script.js:342-346 | the escaped text holds no `<` or `>`, is never shorter, and is unchanged when nothing needs escaping |
| TextRender.UnescapeEscapeHtml | public/script.js:342-346 | escaping loses nothing: reading the character references back gives the original text |
| TextRender.EscapeHtmlConcat | public/script.js:342-346 | text is escaped character by character, so escaping distributes over concatenation |
| TextRender.EscapeRegex | public/script.js:348-350 | the escaped pattern is never shorter and is unchanged without syntax characters |
| TextRender.RegexLiteralOfEscape | public/script.js:348-350 | the regular expression built from `escapeRegex(s)` matches exactly the literal `s` |
| TextRender.Truncate | public/script.js:352-355 | text of at most `max` characters is kept; longer text keeps its first `max` characters followed by `...`, for `max + 3` characters in all |
| TextRender.TruncationCanCutReference | public/script.js:204 | when an `&` falls on the last kept position, the shown text ends in a bare `&` before the ellipsis |
| TextRender.StepShape | public/script.js:266 | one step of the global replace emits exactly the text it passes over, and marks as matches only occurrences of the pattern |
| TextRender.ErasePieces | public/script.js:266 | with the wrappers removed, the pieces of the scan spell the scanned text exactly |
| TextRender.HitsMatchPattern | public/script.js:265-266 | every wrapped piece is an occurrence of the pattern up to ASCII case |
| TextRender.ScanCopiesUpTo | public/script.js:266 | where the pattern does not match from `i` up to `j`, the scan copies those characters one by one and goes on at `j` |
| TextRender.ScanTakesFirstMatch | public/script.js:265-266 | the global scan of a non-empty pattern wraps the leftmost match after the copied text before it, and resumes right after the match: every non-overlapping leftmost match is wrapped |
| TextRender.ScanAfterLastMatch | public/script.js:266 | with no match from `i` on, the rest of the text is copied and nothing is wrapped |
| TextRender.RenderPlains | public/script.js:266 | copied characters come out of the replacement unchanged |
| TextRender.ReplaceAll | public/script.js:265-266 | `text.replace(regex, open + '$1' + close)`: the scan's pieces with each match between the wrappers; its shape is given by `ScanTakesFirstMatch`, `ScanAfterLastMatch` and `ErasePieces` |
| TextRender.ReplaceWithoutMatch | public/script.js:266 | a pattern that matches nowhere leaves the text unchanged |
| TextRender.CopiedUpToFirstMatch | public/script.js:266 | the text before the first match is copied, and the opening wrapper comes right after it |
| TextRender.TermMatchesInsideInsertedTag | public/script.js:281-284 | on text that starts with a field-highlight tag, the term `class` matches inside that tag and the term wrapper lands right after `<span ` |
| TextRender.ApplyAll | public/script.js:262-268 | one `replace` per pattern, each on the previous result, in pattern order; described by `ApplyAllConcat` |
| TextRender.ApplyAllConcat | public/script.js:262-269 | running one pass per pattern over the patterns of `a` and then of `b` is running them over `a + b` |
| TextRender.HighlightValues | public/script.js:262-263 | an entry whose value is an array contributes its strings, any other entry none (entries concatenate, by `HighlightValuesConcat`) |
| TextRender.FieldPass | public/script.js:258-272 | `highlightText`: no highlights object, no change; otherwise one pass per highlight string of the array-valued entries, in key order (`HighlightValuesConcat`, `FieldPassWithoutArrays`) |
| TextRender.FieldPassWithoutArrays | public/script.js:258-272 | the field pass is the identity without a highlights object, or when no highlight value is an array |
| TextRender.SplitWs | public/script.js:278 | splitting on white space always yields a piece; no piece holds white space, and every character of every piece comes from the input |
| TextRender.SplitWsRejoins | public/script.js:278 | the pieces glued back with the white-space characters of the input, in order, give the input again |
| TextRender.RejoinSplits | public/script.js:278 | pieces without white space glued with white-space characters split back into exactly those pieces: with `SplitWsRejoins`, the pieces are exactly the maximal white-space-free runs, in input order |
| TextRender.SplitWsKeepsText | public/script.js:278 | the pieces, joined, are the input without its white space |
| TextRender.LongTermsMembers | public/script.js:278 | the filter keeps exactly the words longer than two characters |
| TextRender.LongTermsConcat | public/script.js:278 | the filter works piece by piece, keeping order and repeats |
| TextRender.LongTermsSingle | public/script.js:278 | one piece is kept exactly when it is longer than two characters |
| TextRender.LongTermsSkipEmpty | public/script.js:278 | an empty piece contributes no term, so splitting at each white-space character and splitting at runs of white space (`/\s+/`) give the same terms |
| TextRender.SearchTerms | public/script.js:278 | the terms are lower-case, free of white space, longer than two characters, each a word of the lower-cased query, and include every such word |
| TextRender.SearchTermsOfWords | public/script.js:278 | for a query that lower-cases to words glued with white space, the terms are exactly the words longer than two characters, in query order and with their repeats |
| TextRender.TermPass | public/script.js:274-287 | `highlightSearchTerms`: no query, no change; otherwise one whole-word pass per term, in term order (`TermPassWithoutTerms`, `SearchTermsOfWords`) |
| TextRender.TermPassWithoutTerms | public/script.js:274-287 | without a query, or with no query word longer than two characters, the term pass changes nothing |
| TextRender.LastSegment | public/script.js:293-294 | the last element of `split('/')` is a suffix of the url without `/`, preceded by a `/` whenever it is not the whole url |
| TextRender.LastSegmentAfterSlash | public/script.js:293-294 | the last segment is everything after the last slash |
| TextRender.DocumentName | public/script.js:289-302 | the name is never empty; an empty or `#` url gives `Unknown Document`; a non-empty last segment without `%` is shown as it is |
| TextRender.DocumentNameOfFolder | public/script.js:293-299 | a url that ends with a slash is shown as `Document` |
| TextRender.DocumentNameDecoded | public/script.js:293-298 | otherwise a last segment that decodes is shown decoded |
| TextRender.DocumentNameShowsRawSegment | public/script.js:293-301 | a last segment with a `%` not followed by two hex digits makes the decoder throw, and the segment is shown as it is |
| TextRender.EncodedSlashStaysInName | public/script.js:293-298 | the segment is cut at the last literal slash before decoding, so `%2F` comes out as a slash inside the shown name |
| SearchAppClient.TotalPages | public/script.js:128 | `ceil(n / 50)`: the pages hold all results and the last page is not empty; zero pages exactly for zero results |
| SearchAppClient.PageSliceShape | public/script.js:109-119 | an existing page holds 1 to 50 results, exactly the results numbered `showingFrom` to `showingTo`, in order |
| SearchAppClient.PagesPartitionResults | public/script.js:109-112 | the page slices from 1 to `totalPages`, one after the other, are the whole result list |
| SearchAppClient.PageButtons | public/script.js:157-171 | one button per page, numbered 1 to `totalPages` in order, active exactly for the current page |
| SearchAppClient.ExactlyOneActive | public/script.js:157-171 | with the current page among the buttons, exactly one button is active |
| SearchAppClient.Navigation | public/script.js:127-189 | no controls when there is at most one page; otherwise Previous is disabled exactly on page 1, Next exactly on the last page, and the buttons are the page buttons |
| SearchAppClient.EntityBadges | public/script.js:217-226 | at most three badges, none of them empty |
| SearchAppClient.EntityBadgesShowFirstNames | public/script.js:217-226 | each badge shows the first names of its own list: three persons, three locations, two organizations |
| SearchAppClient.EntityBadgesPresent | public/script.js:217-226 | a kind has a badge exactly when its list is not empty |
| SearchAppClient.EntityBadgesInOrder | public/script.js:217-226 | badges come in the order persons, locations, organizations, each kind at most once |
| SearchAppClient.KeyPhraseBadges | public/script.js:228-231 | the first five key phrases, each escaped, and no row when there are none |
| SearchAppClient.ShownScore | public/script.js:206 | the relevance is shown exactly for a non-zero score; otherwise `N/A` |
| SearchAppClient.DisplayContent | public/script.js:233-235 | the caption when there is one, escaped and through the term pass only; otherwise the short content through the field pass and then the term pass (`CaptionIgnoresHighlights`, `PlainContentIsEscapedAndTruncated`) |
| SearchAppClient.RenderResult | public/script.js:202-256 | `createResultHTML` as a record of what it shows; its shape is `RenderResultShape` |
| SearchAppClient.RenderResultShape | public/script.js:202-256 | a rendered result shows the selected content; the AI-snippet mark exactly with a caption; the semantic badge and AI score exactly with a non-zero reranker score; never an empty link or document name; at most five key phrases; and the entity badges |
| SearchAppClient.CaptionIgnoresHighlights | public/script.js:233-236 | with a caption the content is the escaped caption through the term pass only, whatever the backend highlights are |
| SearchAppClient.PlainContentIsEscapedAndTruncated | public/script.js:204-236 | without caption, highlights or query, the content is the escaped content cut to 300 characters: no `<` survives, and long content shows exactly 303 characters |
| SearchAppClient.RenderAll | public/script.js:114 | one rendered result per result of the page, in order |
| SearchAppClient.RenderPage | public/script.js:109-114 | the page's rendered results are those of the page slice, in order |
| SearchAppClient.SearchApp.constructor | public/script.js:18-20 | the app starts with no results on page 1 and no query, and the page invariant holds |
| SearchAppClient.SearchApp.View | public/script.js:109-124 | at most 50 items; `showingFrom = (p-1)*50+1` and `showingTo = min(p*50, N)`; the page count is `ceil(N/50)`; with results, the items are exactly results `showingFrom` to `showingTo` rendered in order |
| SearchAppClient.SearchApp.Controls | public/script.js:127-189 | the controls for the current state; when there are any, exactly one page button is active |
| SearchAppClient.SearchApp.BeginSearch | public/script.js:42-54 | a blank input is ignored and leaves the state alone; otherwise the trimmed query is stored for highlighting |
| SearchAppClient.SearchApp.DisplayResults | public/script.js:91-107 | a non-empty list is stored and the page reset to 1, and the first page and its controls are shown; a missing or empty list shows the no-results message and changes nothing |
| SearchAppClient.SearchApp.DisplayCurrentPage | public/script.js:109-125 | the loop renders exactly the page `View` describes |
| SearchAppClient.SearchApp.CreatePagination | public/script.js:127-189 | the loop builds exactly the controls `Controls` describes |
| SearchAppClient.SearchApp.Previous | public/script.js:146-153 | moves back one page only above page 1 and re-renders; otherwise nothing changes; the invariant is kept |
| SearchAppClient.SearchApp.Next | public/script.js:178-185 | moves on one page only below the last page and re-renders; otherwise nothing changes; the invariant is kept |
| SearchAppClient.SearchApp.SelectPage | public/script.js:163-168 | a page button sets that page and re-renders; the invariant is kept |
| SearchAppClient.SearchApp.CreateResultHTML | public/script.js:202-256 | the statement-by-statement rendering equals `RenderResult` for the stored query |
| SearchAppClient.SearchApp.HighlightText | public/script.js:258-272 | the loop over the highlight entries and their strings computes the field pass |
| SearchAppClient.SearchApp.WrapEach | public/script.js:262-268 | one replace per pattern, in order, through the regular expression built from the escaped pattern, equals the passes over the literal patterns |
| SearchAppClient.SearchApp.HighlightSearchTerms | public/script.js:274-287 | nothing happens without a query; otherwise one whole-word pass per extracted term |

## Left out

- `fetch`, the asynchronous `handleSearch`, the loading indicator, DOM lookups, showing and hiding elements, listener wiring and `scrollToResults` are I/O and DOM plumbing. `BeginSearch` models only the synchronous start of `handleSearch`: trim, ignore a blank query, store it.
- Two searches whose answers arrive out of order are not modelled, because that behaviour is about concurrency.
- Express routing, the Azure SDK client, `searchClient.search`, the asynchronous iteration over its results and the `/info` endpoint are library calls. The backend is a function parameter, and its result stream is a sequence.
- The `configuration` object in the "not configured" 500 response is left out, because it reads environment variables. `HandleSearch` returns that response with the error text only.
- `toFixed(2)` is left out, because it is floating point. Scores are `real`, falsy exactly when zero, so NaN is not modelled.
- The markup of the templates (whitespace, class names, emoji, separators) is left out. A rendered result is a record of what it shows.
- `updatePaginationButtons` is never called, and the `maxResults` field is never read.
- `title` is computed in `createResultHTML` but never shown, so it is not part of the rendered record.
- The `results found` text set by `displayResults` is overwritten by `displayCurrentPage` straight away, so only the latter is modelled. The no-results message is a `Screen` value.
- Case folding (`toLowerCase` and the `i` flag) is ASCII only. Lengths count Unicode code points, where JavaScript counts UTF-16 units, so truncation and slicing of text outside the Basic Multilingual Plane differ.
- The route's query is a possibly missing string. Non-string JSON values for `query` or `top` are not modelled beyond the NaN case of `top`. An error without a `message` (where `includes` would throw) is not modelled.
- `escapeHtml` is modelled as the serialisation of a text node: `&`, `<`, `>` and the no-break space become references. The HTML parser and the DOM are not modelled.
- Well-formed markup is not promised, because the code does not keep it. Entity names are not escaped. The link's `href` and the document name in the link text are inserted without escaping. Truncation can cut a reference. A later pass can match inside an earlier pass's tag.
- The scan of an empty highlight string is modelled (it wraps an empty match before every character and at the end), but the leftmost-match lemmas are stated for non-empty patterns only. Search terms are always longer than two characters.
- SearchAppClient.SearchApp.SelectPage: requires a page between 1 and the page count, because buttons exist only for those pages; the handler itself does not check the page.
