# Pastelite paste life cycle in Dafny

Pastelite is a small paste service. A client creates a paste with some text,
an optional lifetime (`ttl_seconds`) and an optional view budget
(`max_views`). It can read the paste through a JSON endpoint that does not
count views (the peek) or through an HTML page that counts one view per
successful read (the consume). Records live in a key-value store under
`paste:<id>`. Expiry is lazy: a read that finds a record past its deadline
or out of views deletes the key and answers not-found.

This project models that life cycle in `app.js`:

- the three checks on a create request;
- the record a valid request builds and the write under its key;
- the peek and consume read paths with their shared expiry policy;
- `escapeHtml`.

It then proves what the service promises over whole sequences of reads.

Modules, in dependency order:

- `Common`: `Option`, `Result` and `Max`.
- `Json`: the JSON values a request field can hold (absent, null, boolean,
  integer, non-integer number, string, array or object), with
  `Number.isInteger` as `IsInteger` (app.js:38, 47), JavaScript truthiness
  as `Truthy` (app.js:61, 66) and the `??` test as `Nullish` (app.js:62).
- `JsString`: `String.prototype.trim` over the ECMAScript white-space and
  line-terminator code points.
- `Escape`: `escapeHtml` as three chained global replacements, with the
  entity decoding that inverts it.
- `Records`: the stored record, its key `Key` (app.js:68, 88, 129) and the
  record a consume writes back, `Viewed` (app.js:166-169). It
  also holds the read paths' tests: the peek's `!== null` deadline test
  `ExpiredAt` (app.js:98), the consume's truthy deadline test
  `ExpiredAtTruthy` (app.js:146), and the view-limit test `ViewLimitReached`
  shared by both paths (app.js:103, 156).
- `Validation`: the create checks and the record construction.
- `Service`: create, peek and consume as pure steps from one store (a `map`)
  to the next. These are the specifications.
- `Handlers`: class `PasteStore` with a `store: map` field. Its methods
  `Create`, `Peek` and `Consume` follow the handlers branch by branch,
  updating the map in place, and each one is proved equal to its `Service`
  step.
- `Lifecycle`: sequences of reads on one id, covering the view budget, the
  time window, peeks that change nothing, and deletion being final.

The clock value (`Date.now()`, `getNow`) and the generated id (`nanoid`) are
parameters. Create takes `now: nat` because `Date.now()` is never negative.
The reads take any integer `now`.

Two details of the code worth knowing:

- Create does not require the id to be fresh. `redis.set` overwrites an
  existing key, and `CreateSpec` is a map update that does the same.
  Freshness only matters to the life-cycle lemmas, which are stated about
  the store a create leaves behind.
- Line 98 tests the deadline with `!== null`, but line 146 tests it by
  truthiness, so a deadline of 0 would never expire on the consume path.
  The model keeps both tests as written. `Records.ExpiryTestsAgree` shows
  they agree on every record the create path can write.

## Model

| member | source | states |
|---|---|---|
| JsString.TrimStart | app.js:30 | the result is a suffix of the input; everything dropped is white space; the result does not start with white space |
| JsString.TrimEnd | app.js:30 | the result is a prefix of the input; everything dropped is white space; the result does not end with white space |
| JsString.Trim | app.js:30 | `content.trim()` is empty exactly when the content holds no visible character, and is no longer than the content |
| Validation.Validate | app.js:30-52 | accepted exactly when the content is a string with a visible character and each count is absent or an integer of at least 1; a failing content check wins over a failing `ttl_seconds` check, which wins over a failing `max_views` check; an accepted request carries the content and the integers given |
| Validation.TtlTruthyMeansGiven | app.js:61-66 | after validation, `ttl_seconds` is truthy exactly when it was given, and then it is the accepted integer |
| Validation.MaxViewsNullishMeansAbsent | app.js:62 | after validation, `max_views ?? null` is null exactly when the field was absent, and otherwise it is the accepted integer |
| Validation.NewPaste | app.js:57-64 | the new record has the given id and the submitted content, `created_at = now`, `views = 0`, a deadline of `now + ttl_seconds * 1000` exactly when `ttl_seconds` was given, and `max_views` as given; it is well formed |
| Validation.RejectedContent | app.js:30-34 | content that is not a string, or is a string holding only white space, is refused with the content error, whatever the other fields hold |
| Validation.RejectedBlankContent | app.js:30-34 | the empty string and the string of a space, a tab and a newline are refused with the content error, whatever the other fields hold |
| Validation.RejectedTtl | app.js:36-43 | a `ttl_seconds` of 0, -1, a non-integer number, null or the string "10" is refused with the ttl error after valid content, whatever `max_views` holds |
| Validation.RejectedMaxViews | app.js:45-52 | a `max_views` of 0, a non-integer number or null is refused with the max-views error after valid content and ttl |
| Records.KeyInjective | app.js:68 | two ids share the key `paste:<id>` only if they are equal |
| Records.ExpiryTestsAgree | app.js:98-146 | on a well-formed record, the `!== null` deadline test of the peek path and the truthiness test of the consume path give the same answer |
| Records.ViewedSpendsOneView | app.js:166-171 | the record a consume writes back for a well-formed record with views left is still well formed and has exactly one view fewer remaining (unlimited stays unlimited) |
| Records.RemainingViews | app.js:114-117 | null exactly when there is no view budget; otherwise never negative, at least `max_views - views`, and on a well-formed record exactly `max_views - views` |
| Service.CreateSpec | app.js:54-75 | a refused body gives its validation error and leaves the store unchanged; an accepted one answers with the id, adds the key `paste:<id>` holding the new record, keeps every other key, and preserves the store invariant |
| Service.InvariantAfterPut | app.js:57-75 | writing a well-formed record under its own key keeps every stored record well formed |
| Service.PeekSpec | app.js:87-117 | the peek shows the record exactly when its key is stored and the record is live; then the store is unchanged and the answer carries the content, the remaining views and the deadline; otherwise the key is gone afterwards; the reason is "missing" exactly when the key was absent, "expired" exactly when the record's deadline is set and reached, and "view limit exceeded" exactly when it is not expired but its views are used up; the invariant is preserved |
| Service.ConsumeSpec | app.js:128-173 | a consume that shows the record returns its escaped content and writes it back with one more view; on an invariant-keeping store this happens exactly when the record is live; otherwise the key is gone afterwards; the reason is "missing" exactly when the key was absent, "expired" exactly when the deadline is truthy and reached, and "view limit exceeded" exactly when it is not expired but its views are used up; the invariant is preserved |
| Handlers.PasteStore.Create | app.js:54-75 | the in-place create (validate, build, `store[key] := paste`) gives the answer and the store of `Service.CreateSpec`, and keeps the invariant |
| Handlers.PasteStore.Peek | app.js:87-117 | the in-place peek (look up, delete on expiry or an exhausted budget, re-store unchanged) gives the answer and the store of `Service.PeekSpec` |
| Handlers.PasteStore.Consume | app.js:128-173 | the in-place consume (look up, delete on expiry or an exhausted budget, store with one more view, escape the content) gives the answer and the store of `Service.ConsumeSpec` |
| Escape.ReplaceAll | app.js:183-185 | a global one-character replace leaves a string without that character unchanged, and every output character is either kept from the input (and is not the replaced one) or comes from the replacement |
| Escape.EscapeHtml | app.js:181-186 | the escaped text contains no `<` and no `>`; text without `&`, `<` and `>` comes back unchanged |
| Escape.ReplaceAllAppend | app.js:183-185 | a global replace of a concatenation is the concatenation of the replaces |
| Escape.ReplaceAllSingle | app.js:183-185 | a replace of a one-character string gives the replacement or that character |
| Escape.EscapeHtmlSingle | app.js:181-186 | one character is escaped to its entity (`&amp;`, `&lt;`, `&gt;`) or left as it is |
| Escape.EscapeHtmlIsPerChar | app.js:181-186 | the three chained replaces escape each character on its own, in order |
| Escape.UnescapeEscapeChar | app.js:181-186 | decoding an escaped character followed by any text gives the character followed by the decoded text |
| Escape.UnescapeEscapeEach | app.js:181-186 | decoding a character-by-character escape recovers the original text |
| Escape.UnescapeEscapeHtml | app.js:183 | because `&` is replaced first, decoding `&amp;`, `&lt;` and `&gt;` recovers the original text |
| Lifecycle.Replay | app.js:87-178 | a run of reads gives one answer per read and keeps the store invariant |
| Lifecycle.ReplayAppend | app.js:87-178 | reading in two runs gives the answers and the store of reading in one |
| Lifecycle.ReadsTouchOnlyTheirKey | app.js:88-171 | reads of one id leave every other key, and its record, as it was |
| Lifecycle.ViewsNeverDecrease | app.js:108-112 | while a record survives a run of reads, only its view count changes, and it never goes down |
| Lifecycle.DeletionIsTerminal | app.js:92-94 | once the key is gone, every later peek or consume answers "missing" and the store stays as it is |
| Lifecycle.BudgetServes | app.js:156-171 | with no deadline and within the view budget, every consume shows the content escaped, and the record ends with that many more views |
| Lifecycle.ExhaustedIsDeleted | app.js:146-164 | a consume at an instant where the record is not expired, but its views are used up, deletes it with a view-limit answer, and every read after it answers "missing" |
| Lifecycle.ViewBudget | app.js:156-171 | with no deadline, exactly the first `max_views - views` consumes show the paste; the next deletes it with a view-limit answer; a run within the budget leaves the record with that many more views |
| Lifecycle.ExhaustedForGood | app.js:92-94 | for a record with no deadline, one consume past the budget deletes the paste, and every peek or consume after that answers "missing" and changes nothing |
| Lifecycle.ConsumeLimitAfterCreate | app.js:54-178 | after a create with `max_views = N` and no `ttl_seconds`, the first N consumes show the content, the next one answers view-limit exceeded, and every later read answers "missing" |
| Lifecycle.CreatedRecord | app.js:57-75 | after an accepted create, the key holds a record with the submitted content, no views, the given budget, and a deadline exactly when `ttl_seconds` was given; the store keeps its invariant |
| Lifecycle.PeekIsIdempotent | app.js:92-112 | a second peek at the same instant leaves the store of the first; it gives the same answer when the first showed the paste, and "missing" after a first peek that answered not-found |
| Lifecycle.PeeksChangeNoRecord | app.js:108-112 | any run of peeks leaves the store as it was, or without this one key |
| Lifecycle.RepeatedPeeksStore | app.js:108-112 | any number (at least one) of peeks at one instant leaves the store of a single peek |
| Lifecycle.ManyPeeksThenConsume | app.js:87-173 | at one instant, any number of peeks before a consume give the same consume answer and final store as a single peek before it |
| Lifecycle.SharedExpiryPolicy | app.js:98-164 | on an invariant-keeping store, peek shows a record exactly when consume would; when peek answers not-found, consume gives the same reason and the same store |
| Lifecycle.TtlWindow | app.js:61-154 | for the first read after a create with `ttl_seconds = T` at `created`: either read shows the paste exactly when it comes before `created + T * 1000`, and from that instant on either read answers "expired" |
| Lifecycle.PastDeadline | app.js:92-154 | after any run of reads, a read at or after the record's deadline answers "expired" (or "missing" if an earlier read deleted it), never shows it, and leaves the key gone |
| Lifecycle.TtlDeadlineIsFinal | app.js:57-154 | after a create with `ttl_seconds = T` at `created` and any run of reads, no peek or consume at `created + T * 1000` or later shows the paste; it answers "expired" or "missing" |
| Lifecycle.CreateThenPeek | app.js:57-117 | a peek right after a create shows the submitted content, the given view budget and the new deadline |
| Lifecycle.RemainingViewsAreTheBudget | app.js:114-171 | when a peek reports `remaining_views = r` and no deadline, exactly the next r consumes show the paste |
| Lifecycle.HelloBody | app.js:30-52 | the body `{"content": "hello", "max_views": 1}` is accepted with no ttl and a budget of 1 |
| Lifecycle.SingleView | app.js:54-171 | with `max_views = 1` and no deadline, the first consume after a create shows the escaped content and the second finds the limit reached |
| Lifecycle.HelloNeedsNoEscaping | app.js:181-186 | escaping leaves "hello" as it is |
| Lifecycle.HelloOnce | app.js:54-173 | `{"content": "hello", "max_views": 1}`: the create succeeds, the first consume renders exactly "hello", the second finds the limit reached |
| Lifecycle.HiBody | app.js:30-52 | the body `{"content": "hi", "ttl_seconds": 1}` is accepted with a ttl of 1 and no budget |
| Lifecycle.HiForOneSecond | app.js:57-101 | created with `ttl_seconds = 1` at instant 0, a peek at 500 shows the paste and a peek at 1000 finds it expired |

## Left out

- Express routing, status codes, the JSON response bodies, the URL in the
  create answer (app.js:78-81), request logging (app.js:27), and `app.listen`: transport
  glue. Each outcome is a constructor of the result datatypes instead.
- The health check (app.js:15-22) calls `redis.ping()` on a client that is
  not part of this model.
- The Redis client is not part of this model. The store is a `map` from key
  to record, so the JSON string-or-object form of stored values is not
  modelled. The native `EX` expiry set when `ttl_seconds` is truthy
  (app.js:66-72) is not modelled either, because the lazy checks on the
  read paths are what the code relies on. `Handlers.PasteStore.Create`
  therefore writes the record the same way in both branches.
- Reading the HTML template file and substituting `{{CONTENT}}`
  (app.js:132-173) are file I/O and templating. A consume returns the
  escaped content that would be substituted, or a not-found reason in place
  of the three error fragments. `String.prototype.replace` with a string
  replacement expands the patterns `$&`, `` $` ``, `$'` and `$$`, so content
  holding `$` does not reach the page exactly as `EscapeHtml(content)`. The
  model stops at the escaped text and does not describe the page.
- `nanoid(10)`, `Date.now()` and `getNow` (now.js) are randomness, clock and
  request-header sources; the id and `now` are parameters. `now` is an
  integer, so a non-numeric or fractional test-mode header is not modelled.
- The ISO-8601 rendering of `expires_at` in the peek answer (app.js:122-124)
  is date formatting. The peek answer carries the deadline in epoch
  milliseconds; on a well-formed record it is never 0, so the truthiness
  test there never turns it into null.
- Every store call and the template read are taken to succeed. The create
  handler turns a failure into a 500 answer (app.js:82-84). The two read
  handlers have no handler for failures (app.js:87-178), and the template is
  read before the not-found test (app.js:133). None of these failure paths
  is modelled.
- Concurrency: the get-then-set race between app.js:130 and app.js:171 is
  not modelled. Each handler is one atomic step.
- Floating point: `ttl_seconds * 1000` and `Number.isInteger` are taken over
  mathematical integers. Numbers past 2^53 have no rounding, and a
  non-integer number is a single `NonInteger` value.
- `Json.Value.Composite` stands for every array and object. The handlers
  only distinguish these by type and truthiness, so their contents are not
  modelled. `Json.Value.Bool` carries its boolean.
- A `string` here is a sequence of Unicode scalar values, not of UTF-16 code
  units, so a lone surrogate (a JSON `\uD800`) cannot be represented. Trim
  and escaping treat every such code unit as an ordinary character, so this
  changes neither of them.
- ExhaustedForGood, ViewBudget, BudgetServes and ConsumeLimitAfterCreate are
  stated for records without a deadline. With a deadline set, the time test
  can end a run of consumes before the view budget does.
  `Lifecycle.PastDeadline` and `Lifecycle.TtlDeadlineIsFinal` cover that
  case.
