# LG Photography site: rate limiter, contact route and portfolio filter in Dafny

The site is a Next.js front end for an event photographer's portfolio. Almost all of it is
rendering and CMS queries. This project models the three pieces of logic in it that can be
stated precisely, and proves what they promise:

- **The API rate limiter** (`middleware.ts`). A module-level map holds one `{count, resetTime}`
  record per client key. The key is `rate-limit:` plus the first comma-separated field of the
  `x-forwarded-for` header, trimmed, or `anonymous` when the header is absent. Each request under
  `/api/` either opens a new 60-second window, counts against the open window, or is rejected
  with 429 once 60 requests have been admitted in that window.
  - Module `RateLimit` gives the pure per-key state machine (`Admit`), the step on the whole map
    (`Step`), and replays of call sequences.
  - Module `Middleware` gives key derivation, the `/api/` gate and the responses. Its class
    `Limiter` holds the map as a field and updates it in `CheckRateLimit` and `Middleware`.
    Both methods take the clock reading `now` as a parameter.
- **The contact route** (`app/api/contact/route.ts`). `POST` runs a fixed chain of guards:
  1. the mail service key is configured;
  2. the body parses;
  3. `name`, `email` and `message` are present;
  4. the email matches `^[^\s@]+@[^\s@]+\.[^\s@]+$`.

  Only then does it send a mail, with a subject and HTML body built from the fields. Module
  `Contact` models this chain as a function to an outcome (`NotConfigured`, `BodyFailed`,
  `MissingFields`, `InvalidEmail` or `Send(mail)`) and the JSON response it leads to. The regular
  expression is modelled twice, and the two are proved equivalent:
  - `MatchesEmailRegex` is its matching semantics;
  - `ValidEmail` is a character-level check.
- **The portfolio filter** (`app/portfolio/page.tsx`). Module `Portfolio` gives the tab table,
  the main categories derived from it, the project selection for the active tab, the badge text
  and the project link.

Module `JsText` models the JavaScript built-ins these rely on:
- the whitespace set shared by `trim` and the regex class `\s`;
- `trim` itself;
- the first field of `split(',')`;
- `startsWith`;
- integer `toString`;
- `JSON.stringify` of an error object.

Notes on the model:
- The subject separator in `route.ts` is the three characters U+00E2 U+20AC U+201D between
  spaces. This is an em dash whose UTF-8 bytes were decoded as Windows-1252. The model uses it as
  written (`Contact.Separator`).
- The `Category` field that the source calls `label` is named `caption`, because `label` is a
  Dafny keyword.
- The retry hint is the constant `Retry-After: 60` in the code. It is not the number of seconds
  left in the window. The model follows the code.

## Model

| member | source | states |
|---|---|---|
| JsText.Trim | middleware.ts:12 | the result has no whitespace at either end and sits in the input at some offset where everything before and after it is whitespace, which fixes it uniquely |
| JsText.FirstField | middleware.ts:12 | `split(',')[0]` is the prefix before the first comma: it contains no comma and is either the whole string or followed by a comma |
| JsText.NumberString | middleware.ts:53-54 | `toString` of a non-negative integer below 10^21 is its canonical decimal: non-empty digits, no leading zero unless it is `0`, parsing back to the number; a negative one is `-` followed by the canonical decimal of its magnitude |
| JsText.ErrorJson | middleware.ts:45-47 | the error body is `{"error":"` followed by the message and `"}`, and the message can be read back from between them |
| RateLimit.Admit | middleware.ts:16-35 | a call is admitted iff no window is open at `now` (`now == resetTime` is still open) or the open window has count below 60; a rejection leaves the record unchanged and reports 0 remaining; an admission reports `60 - count` remaining; afterwards the stored window is open at `now` |
| RateLimit.NewWindow | middleware.ts:20-26 | with no record, or with `now > resetTime`, the record becomes count 1, resetTime `now + 60000`, and the call is admitted with 59 remaining |
| RateLimit.CountsWithinWindow | middleware.ts:33-34 | inside an open window with budget left, count rises by exactly one, resetTime is unchanged, remaining is `60 - newCount` |
| RateLimit.AdmitKeepsInvariant | middleware.ts:20-34 | from a record with `1 <= count <= 60` (or none), the stored record again has `1 <= count <= 60` and remaining is in 0..59 |
| RateLimit.Step | middleware.ts:16-35 | on the whole map only the given key's entry is created or changed; every other entry is untouched and none is removed |
| RateLimit.StepKeepsInvariant | middleware.ts:20-34 | a map whose records all satisfy `1 <= count <= 60` keeps that property, and remaining is in 0..59 |
| RateLimit.BudgetPerWindow | middleware.ts:20-34 | calls for one key within one window starting with no open window: the first 60 are admitted with remaining 59, 58, ..., 0, and every later one is rejected |
| RateLimit.ReplayAll | middleware.ts:5-34 | after any sequence of calls the map holds exactly the old keys plus the keys called; entries are never deleted |
| RateLimit.ReplayAllKeepsInvariant | middleware.ts:20-34 | over any sequence of calls every record keeps `1 <= count <= 60` and every remaining is in 0..59 |
| RateLimit.KeysAreIsolated | middleware.ts:16-35 | whatever other keys do in between, the verdicts for one key and its final record are exactly those of its own calls alone |
| RateLimit.OwnBudgetPerKey | middleware.ts:16-35 | each key gets its own 60-request budget per window, however its calls are interleaved with other keys' calls |
| Middleware.ClientIp | middleware.ts:12 | with no header the address is `anonymous`; otherwise it is the first comma-separated field of the header with the whitespace at both ends, and only that, removed |
| Middleware.RateLimitKey | middleware.ts:10-14 | the key is `rate-limit:` followed by the client address |
| Middleware.EmptyHeaderIsNotAnonymous | middleware.ts:12 | an empty header gives the key `rate-limit:`, not the anonymous key |
| Middleware.AnonymousBucketIsShared | middleware.ts:12-13 | clients without the header share a bucket with clients whose header says `anonymous` |
| Middleware.KeyIgnoresLaterHops | middleware.ts:12 | anything after the first comma of the header never changes the key |
| Middleware.IsApiPath | middleware.ts:39 | a path goes through the limiter iff it is `/api/` followed by anything |
| Middleware.GateResponse | middleware.ts:43-64 | a verdict gives a 429 rejection iff it was not admitted; the rejection carries `Retry-After: 60`; both responses carry the limit 60 and the remaining count |
| Middleware.Handle | middleware.ts:37-68 | a path outside `/api/` passes through with no headers and leaves the map unchanged; an `/api/` path stores exactly what the limiter step stores for its key, changes no other entry, and answers with the gate response to that step's verdict (limit and remaining headers on admission); the response is a rejection iff the path is under `/api/` and its key's open window already holds 60 requests |
| Middleware.RejectionHeaders | middleware.ts:43-58 | every rejection has status 429, `Retry-After: 60`, `X-RateLimit-Remaining: 0` and the rate-limit error body |
| Middleware.Limiter.constructor | middleware.ts:5 | the limiter starts with an empty map |
| Middleware.Limiter.CheckRateLimit | middleware.ts:16-35 | updates the map field in place exactly as `Step`, keeps every record within `1 <= count <= 60`, and returns remaining in 0..59 |
| Middleware.Limiter.Middleware | middleware.ts:37-68 | updates the map field and responds exactly as `Handle` |
| Contact.ValidEmailIffRegex | app/api/contact/route.ts:25-26 | the character check accepts a string iff the regex matches all of it. The check requires no whitespace, exactly one `@`, a non-empty part before it, and a `.` after it with a character on each side |
| Contact.PlainEmailAccepted | app/api/contact/route.ts:25-26 | `a@b.co` is accepted |
| Contact.DoubleDotEmailAccepted | app/api/contact/route.ts:25-26 | `a@b..c` (consecutive dots in the domain) is accepted |
| Contact.MisplacedDotRefused | app/api/contact/route.ts:25-26 | a dot right after `@` (`a@.co`) and a trailing dot (`a@b.`) are each refused |
| Contact.MalformedEmailRefused | app/api/contact/route.ts:25-26 | an empty local part (`@b.co`), two `@`s (`a@@b.co`) and a space (`a b@c.de`) are each refused |
| Contact.ReplaceNewlines | app/api/contact/route.ts:46 | no newline survives; each newline adds five characters; a message without newlines is unchanged |
| Contact.ReplaceNewlinesAppend | app/api/contact/route.ts:46 | the replacement works piece by piece over concatenation |
| Contact.NewlineIndistinguishableFromBreak | app/api/contact/route.ts:46 | a newline and a literal `<br />` in the message render identically |
| Contact.Subject | app/api/contact/route.ts:38 | without a service the subject is exactly `New enquiry from ` and the name; with one, the name is followed by the separator |
| Contact.SubjectRoundTrip | app/api/contact/route.ts:38 | the service can be read back from the subject exactly when it is non-empty, and it is recorded whole |
| Contact.ServiceText | app/api/contact/route.ts:43 | the service line is never empty: a non-empty service shows itself, an absent or empty one shows `Not specified` |
| Contact.Html | app/api/contact/route.ts:39-47 | the HTML opens with the `New Contact Form Submission` heading and closes with the paragraph holding the message after newline replacement |
| Contact.HtmlShowsFields | app/api/contact/route.ts:41-43 | the HTML contains the Name line with the name, the Email line with the email, and the Service line with the service or `Not specified` |
| Contact.HtmlMessageSlot | app/api/contact/route.ts:39-47 | the message enters the HTML at exactly one place, only through the newline replacement; the rest is what an empty message gives |
| Contact.HtmlServiceFallback | app/api/contact/route.ts:43 | an absent or empty service renders exactly like the service `Not specified` |
| Contact.HandleContact | app/api/contact/route.ts:6-48 | the config check comes first, regardless of the body; then an unparseable body; then missing name, email or message; then an email the regex rejects. A mail is sent only when all pass, from the site sender to the site inbox, replying to the given email, with the subject and HTML built from the submitted fields |
| Contact.ServiceIsOptional | app/api/contact/route.ts:17-22 | the service field never decides which check fails or whether a mail is sent |
| Contact.Respond | app/api/contact/route.ts:6-56 | status 200 with `{"success":true}` iff a mail was sent and the send did not throw; 400 iff a field check failed, with the missing-fields or invalid-email message; 500 iff the key is missing, the body could not be parsed or the send threw, with the not-configured message for the missing key and the generic message otherwise |
| Contact.Post | app/api/contact/route.ts:4-57 | every request ends in status 200, 400 or 500, and in 500 exactly when the key is missing, the body cannot be parsed, or a send that was attempted threw |
| Contact.SuccessMeansAllChecksPassed | app/api/contact/route.ts:6-50 | a 200 response implies the service is configured, all three required fields are non-empty, and the email matches the regex |
| Portfolio.Filter | app/portfolio/page.tsx:69-70 | an element is kept iff it is in the input and satisfies the predicate, and every kept value occurs exactly as often as in the input |
| Portfolio.FilterIsSubsequence | app/portfolio/page.tsx:69-70 | the filtered list embeds into the input at strictly increasing positions |
| Portfolio.MainCategoryIds | app/portfolio/page.tsx:63 | the ids kept are exactly the table's ids other than `all` and `Other` |
| Portfolio.MainCategoriesAre | app/portfolio/page.tsx:18-24 | the main categories are exactly Music, Portrait and Travel, in that order |
| Portfolio.FilteredItems | app/portfolio/page.tsx:65-70 | tab `all` returns the list unchanged. Tab `Other` keeps exactly the items whose category is not a main category. Any other tab keeps exactly the items whose category equals it |
| Portfolio.FilteredIsSubsequence | app/portfolio/page.tsx:65-70 | every tab's list is an order-preserving subsequence of the projects |
| Portfolio.SchemaExtrasLandInOther | app/portfolio/page.tsx:68-69 | projects filed as Celebrations, Sport, Architecture or Other are listed under Other and under no main tab |
| Portfolio.ExactlyOneTab | app/portfolio/page.tsx:63-70 | each project belongs to exactly one of the Music, Portrait, Travel and Other tabs |
| Portfolio.TabsPartition | app/portfolio/page.tsx:63-70 | the Music, Portrait, Travel and Other lists together hold every project exactly as often as the input does |
| Portfolio.FindCategory | app/portfolio/page.tsx:195 | a found entry has the requested id and no entry before it in the table has that id; none is found only when no entry has that id |
| Portfolio.BadgeLabel | app/portfolio/page.tsx:195 | the badge shows the caption of the matching tab, or the raw category when no tab has that id |
| Portfolio.BadgeCaptions | app/portfolio/page.tsx:195 | `Music` shows `Music & Events`; a project filed under `all` would show `All Work` |
| Portfolio.BadgeFallsBack | app/portfolio/page.tsx:195 | `Sport`, which has no tab, shows itself |
| Portfolio.ProjectHref | app/portfolio/page.tsx:143 | the link is `/portfolio/` followed by the slug when it is set and non-empty, otherwise the document id |

## Left out

- NumberString: integers from 10^21 up are printed by JavaScript in exponent form, which is not modelled; the middleware only formats 0 to 60.
- The clock: `Date.now()` (middleware.ts:17) is the parameter `now`, in integer milliseconds.
- Concurrency on the shared map: calls are sequential. The map is never pruned, as in the code.
- Record aliasing: `record.count++` (middleware.ts:33) mutates the stored object in place. The model stores records as values and reassigns the map entry. Nothing else holds the record, so the effect is the same.
- The `config.matcher` paths (middleware.ts:70-75): they decide which requests reach the middleware at all. Both they and the `/api/` test let other requests pass unchanged. Only the `/api/` test is modelled.
- Header details: a request is its pathname and the optional `x-forwarded-for` value. The folding of repeated headers is left out, as is every other part of `NextRequest`/`NextResponse`. `Content-Type` is kept as a header value.
- JSON: `JSON.stringify` is modelled only for the fixed error messages and `{success: true}`. None of them needs escaping.
- The request body: a field can be absent or a string. Non-string JSON values are left out; a `message` of another type would throw in `replace` and reach the generic 500.
- Resend: the `process.env` read, the client constructor and the send are I/O. The key is a parameter and the send is the outcome `Send(mail)`. A thrown send is the `sendThrows` flag of `Respond`. The code ignores the value the send returns, and so does the model.
- HTML escaping: the code interpolates name, email, service and message into the HTML, and name and service into the subject, without escaping; the model reproduces the strings exactly.
- Portfolio page state and rendering: the fetch, `useState`/`useEffect`, the loading and empty states, animation and images.
- The gallery row layout: the component that pairs portrait and landscape images is not part of this model.
- All other pages, components, the CMS schemas and static text are UI or configuration.
