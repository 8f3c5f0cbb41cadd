# Douban search extractor — a Dafny model

This project models `scrapeDouban` in `lib/scrape.ts`. The function sends one search request to Douban and checks the response:

- the status must be 200;
- the body must be non-empty;
- the page title must not contain the challenge marker "验证".

It then walks the `.result` nodes of the page. From each node it builds a `DoubanSearchResult`:

- the title has its first `[...]` group removed and is trimmed;
- the link is the `href` attribute;
- `rating` and `ratingPeople` are optional;
- `info` and `intro` are trimmed.

A node whose extraction throws is skipped. So is a node without a title or a link. If no result is left, the call fails. Every failure is mapped to one Chinese error message by the outer `catch`.

The HTTP client and the HTML library are replaced by plain inputs:

- An `Exchange` says how the request ended: a response with a status, a body and a parsed page, a client error without a response, or a rejection with a non-`Error` value.
- A `Page` holds the title text and, for each `.result` node, either "reading it throws" or the texts its selectors return.

The client's `validateStatus` (a status below 500 resolves) is part of the model. A status of 500 or more becomes a client error that carries the response.

Modules:

- `Outcomes`: `Option` and `Result`.
- `JsString`: the JavaScript string operations the code relies on:
  - `String.prototype.trim` and the `\s` class, with the ECMAScript white-space and line-terminator set;
  - `includes`;
  - the decimal rendering of a status in a template literal.
- `BracketPattern`: `replace` with the non-global pattern `\[.*?\]\s*`, that is, the leftmost match with a lazy body. `.` stops at line terminators and the trailing `\s*` is greedy. The operation is specified by a match predicate, independent of the code.
- `Selection`: an order-preserving filter-map over a sequence (`Select`), and its characterisation as a selection by strictly increasing indices.
- `Scrape`: the records, per-node extraction, the node loop (`CollectResults`, imperative), the outcome as a function (`Search`) and step by step (`ScrapeDouban`), and the error table.
- `ScrapeProperties`: what the code promises, proved about `Scrape`.

Two details of the code that are easy to misread, and that the model keeps:

- The link is `attr("href") || ""` and is not trimmed. An `href` made only of spaces therefore passes `if (title && link)`, while a title made only of spaces does not.
- The bracket pattern is not anchored. It removes the first `[...]` group wherever it stands, not only a leading one (`BracketPattern.FirstGroupRemoved`).

## Model

| member | source | states |
|---|---|---|
| Scrape.CollectResults | lib/scrape.ts:63-93 | the `.each` loop leaves exactly `Collected(nodes)` in `results`: one result per node that yields one, in document order |
| Scrape.ScrapeDouban | lib/scrape.ts:42-112 | the step-by-step function returns exactly `Search(ex)`: the checks in order, the loop, the empty-result check and the outer `catch` |
| Scrape.ExtractNode | lib/scrape.ts:64-88 | the per-node `try` body: a result only comes from a node that does not throw, with its `href` as the link, non-empty, and a non-empty title; `ExtractNodeKept` and `ExtractNodeFields` give the full characterisation |
| Scrape.Collected | lib/scrape.ts:63-93 | the loop's results: at most one per node; `CollectedIsSelection` characterises them as an order-preserving selection |
| Scrape.BadResponse | lib/scrape.ts:39 | a status `validateStatus` refuses makes the client reject with an error that carries the response and has no timeout code |
| Scrape.Attempt | lib/scrape.ts:42-98 | the outer `try` body: it returns results only for a 200 response with a non-empty body, and never an empty list; the failure order is stated by `RejectedStatusFails`, `EmptyBodyFails`, `ChallengeFails`, `NoResultsFails` |
| Scrape.Classify | lib/scrape.ts:99-111 | the outer `catch`: every message is the timeout message, or starts with "爬取失败: " or "请求失败: "; `ClassifyTimeoutIff`, `ClassifyResponseIff`, `ClassifyOtherErrors` give each case |
| Scrape.Search | lib/scrape.ts:15-112 | the whole call: on success, a response arrived and the results are non-empty and at most one per node; `SearchSucceedsIff` gives the exact condition |
| ScrapeProperties.ExtractNodeKept | lib/scrape.ts:65-79 | a node yields a result iff it does not throw, its title minus the first bracket group is not all white space, and its `href` exists and is non-empty |
| ScrapeProperties.ExtractNodeFields | lib/scrape.ts:65-87 | field by field: normalised title, untrimmed `href`, `rating`/`ratingPeople` absent iff their text is blank and otherwise trimmed, `info`/`intro` trimmed |
| ScrapeProperties.ExtractNodeWellFormed | lib/scrape.ts:65-87 | every result a node yields is well formed: non-empty title and link, trimmed texts, present optional fields non-empty |
| ScrapeProperties.TextField | lib/scrape.ts:71-84 | the trimmed selector text followed by the spread `...(x && { x })`: the property is absent iff the raw text is all white space, and otherwise holds the trimmed text, non-empty and trimmed |
| ScrapeProperties.ThrowingNodeSkipped | lib/scrape.ts:89-92 | a node that throws is as good as removed from the list: the results are those of the nodes before it followed by those after it |
| ScrapeProperties.CollectedIsSelection | lib/scrape.ts:63-93 | the loop's results are, both ways, an order-preserving selection of the nodes by strictly increasing indices that contains every node yielding a result |
| ScrapeProperties.CollectedWellFormed | lib/scrape.ts:79-88 | every result the loop keeps is well formed |
| ScrapeProperties.RejectedStatusFails | lib/scrape.ts:46-48 | an accepted status other than 200 fails with "爬取失败: 请求失败，状态码: <status>", whatever the body and page |
| ScrapeProperties.ServerErrorFails | lib/scrape.ts:39 | a status of 500 or more fails with "请求失败: <status>", without the general prefix |
| ScrapeProperties.EmptyBodyFails | lib/scrape.ts:51-53 | a 200 response with an empty body fails with "爬取失败: 未收到响应数据" |
| ScrapeProperties.ChallengeFails | lib/scrape.ts:59-61 | a title containing "验证" at any position fails with "爬取失败: 访问被限制，需要验证码", whatever the nodes |
| ScrapeProperties.PageIgnoredUntilBodyChecked | lib/scrape.ts:46-55 | before the status and body checks pass, the page does not influence the outcome, which is a failure |
| ScrapeProperties.NoResultsFails | lib/scrape.ts:95-97 | a page that passes the checks but whose nodes all yield nothing fails with "爬取失败: 未找到相关结果" |
| ScrapeProperties.SearchSucceedsIff | lib/scrape.ts:42-98 | success iff status 200, non-empty body, no challenge marker and a non-empty loop result; the results are then the loop's, non-empty, at most one per node, all well formed |
| ScrapeProperties.ClassifyTimeoutIff | lib/scrape.ts:100-103 | the timeout message comes from a client error with code "ECONNABORTED" and from nothing else |
| ScrapeProperties.ClassifyResponseIff | lib/scrape.ts:104-106 | "请求失败: <n>" comes exactly from a non-timeout client error carrying a response with status n |
| ScrapeProperties.ClassifyOtherErrors | lib/scrape.ts:108-111 | every other thrown value gets "爬取失败: " plus its message, or "未知错误" for a non-`Error` |
| ScrapeProperties.TimeoutReportedIff | lib/scrape.ts:99-103 | the call reports the timeout message iff the request ended in a timeout |
| ScrapeProperties.ResponseStatusReportedIff | lib/scrape.ts:104-106 | "请求失败: <n>" is reported iff a response with status n arrived and n >= 500 |
| ScrapeProperties.ThreeNodeExample | lib/scrape.ts:63-98 | with three nodes whose middle one yields nothing, the call returns the first and third results in that order |
| BracketPattern.StripFirstBracket | lib/scrape.ts:68 | the replaced text is never longer than the input |
| BracketPattern.FirstMatchFrom | lib/scrape.ts:68 | the left-to-right search for a match returns a span inside the text that starts at or after the search position; `FirstMatchFromSpec` says it is the leftmost |
| BracketPattern.FirstMatchFromSpec | lib/scrape.ts:68 | the scanner finds the leftmost match at or after its start, or reports that no match begins there |
| BracketPattern.MatchDetermined | lib/scrape.ts:68 | a match's end is determined by its start: lazy body, greedy white-space tail |
| BracketPattern.StripFirstBracketSpec | lib/scrape.ts:68 | no match leaves the text unchanged; otherwise exactly the leftmost match `s[i..e]` is removed |
| BracketPattern.NormaliseTitle | lib/scrape.ts:65-69 | the cleaned title carries no surrounding white space |
| BracketPattern.FirstGroupRemoved | lib/scrape.ts:68 | `pre + "[x]" + spaces + rest` becomes `pre + rest` when `pre` has no `[`: the group need not be leading |
| BracketPattern.LeadingGroupRemoved | lib/scrape.ts:65-69 | `"[x]" + spaces + rest` normalises to `Trim(rest)`, e.g. "[译] Foo" to "Foo" |
| BracketPattern.NoBracketUnchanged | lib/scrape.ts:68 | a text without `[` is left unchanged |
| BracketPattern.BrokenGroupKept | lib/scrape.ts:68 | a line terminator before the closing `]` prevents the match, and the text is kept as it is |
| BracketPattern.CloseBracket | lib/scrape.ts:68 | the lazy `.*?\]` finds the first `]` reachable without crossing a line terminator, or there is none |
| BracketPattern.SkipSpaces | lib/scrape.ts:68 | greedy `\s*` ends at the end of the text or before a non-space character |
| JsString.TrimStart | lib/scrape.ts:69 | the result is a suffix, what was removed is all white space, and it starts with a non-space character |
| JsString.TrimEnd | lib/scrape.ts:69 | the result is a prefix, what was removed is all white space, and it ends with a non-space character |
| JsString.Trim | lib/scrape.ts:69 | the result carries no white space at either end |
| JsString.TrimUnique | lib/scrape.ts:69 | trimming removes exactly the white-space margins: any split into blank, trimmed and blank parts gives the middle |
| JsString.TrimIdempotent | lib/scrape.ts:69 | trimming twice is trimming once |
| JsString.TrimEmptyIff | lib/scrape.ts:71-79 | a trimmed text is empty iff the original is all white space, so `if (title && ...)` and `rating &&` test for blank text |
| JsString.Includes | lib/scrape.ts:59 | `includes`: it can hold only when the marker is no longer than the text; `IncludesIff` characterises it |
| JsString.IncludesIff | lib/scrape.ts:59 | `includes` holds iff the marker occurs at some position |
| JsString.IncludesAt | lib/scrape.ts:59 | an occurrence at a given position makes `includes` hold |
| JsString.Decimal | lib/scrape.ts:47 | the status renders as a non-empty digit string without a leading zero, except for 0 |
| JsString.DecimalRoundTrip | lib/scrape.ts:47 | reading back the rendered digits gives the status |
| JsString.DecimalInjective | lib/scrape.ts:105 | different statuses render differently, so the message identifies the status |
| Selection.Select | lib/scrape.ts:63-93 | the filtered sequence is never longer than the input |
| Selection.SelectAppend | lib/scrape.ts:63-93 | processing two lists of nodes one after the other gives the concatenation of their results |
| Selection.SelectSingleton | lib/scrape.ts:79-88 | one node contributes its result if it yields one, and nothing otherwise |
| Selection.SelectSkips | lib/scrape.ts:89-92 | an element that yields nothing can be dropped without changing the results |
| Selection.SelectDropsMiddle | lib/scrape.ts:63-93 | of three elements, only the middle one yielding nothing, the results of the outer two remain in order |
| Selection.SelectIsSelection | lib/scrape.ts:63-93 | the filtered result is a selection by strictly increasing indices that contains every yielding element |
| Selection.SelectionIsSelect | lib/scrape.ts:63-93 | any such selection equals the filtered result |

## Left out

- The request configuration (URL, `cat`/`q` parameters, headers, the 5000 ms timeout) is network I/O. It is represented only by its outcome, an `Exchange`. That a timeout yields code "ECONNABORTED" is taken as the client's behaviour.
- Exactly one request is sent and there is no retry. This is a property of I/O and is not stated.
- HTML parsing and the CSS selectors (`.result`, `.title h3`, `.rating_nums`, the `:contains('人评价')` span, `.subject-cast`, `.content p`, `title`) are left out. A `Page` gives the texts they return. A node that throws stands for any exception inside the per-node `try`.
- `console.error` logging in the per-node `catch` is left out. It has no effect on the result.
- The `async`/`await` plumbing is left out. A rejected promise is modelled as an `Err` result carrying the message of the thrown `Error`.
- `response.data` is modelled as a string, the empty string standing for every falsy body. Non-string bodies are not modelled.
- Other client errors that carry a response are not modelled separately. With `validateStatus` as configured, the only such response is a status of 500 or more.
- Strings are sequences of Unicode code points, while JavaScript strings are UTF-16 code units. Every character that `trim`, `\s`, `.`, `[`, `]`, `includes("验证")` and the status rendering test lies in the Basic Multilingual Plane, and no surrogate is white space, a bracket or a line terminator, so the two views give the same results here.
- The status is a natural number. Statuses are not bounded to the HTTP range.
- The API route and the page component that call the extractor are not part of this model.
