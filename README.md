# Failure-simulating user API: a Dafny model

This project models the core of a demo ASP.NET user API. The API exists so that
client developers can exercise their error handling. Its core is the layer that
reproduces failures on purpose:

- a per-client sliding-window rate limiter on the user listing: at most five
  requests within ten seconds, otherwise 429 with `Retry-After: 10`;
- paging of the listing;
- a global retry gate on user creation: 408 until a required number of attempts
  has been made;
- a 422 for a user created as active;
- a localized problem body for an unknown user id (404, type URI from section
  15.5.5 of RFC 9110);
- a plain not-found message for an empty search.

The model has these parts:

- `UserController` is a class. Its three fields are the controller's static
  state: the user list, the attempt counter and the request log (client name to
  timestamps).
- Its handlers are methods or read-only functions:
  - `GetUsers`;
  - `GetUser`;
  - `CreateUser`;
  - `SearchUsers`;
  - `SeedIfEmpty`, the instance constructor's seeding.
- Pure functions cover the LINQ helpers (`Where`, `Skip`, `Take`,
  `FirstOrDefault`), the .NET string operations used (`Contains`,
  `Split(',')[0]`, `int.ToString`, `string.Format` with `{0}`) and the
  `CustomLocalizer` lookup.

Files and modules:

- `sequences.dfy`: `Wrappers` (Option) and `Sequences` (filter, skip, take,
  subsequence).
- `text.dfy`: `Text`.
- `localization.dfy`: `Localization`, the translation table and `GetString`.
- `users.dfy`: `Users`, the user record, the seed users, lookup by id, and the
  e-mail filter.
- `rate_limiting.dfy`: `RateLimiting`, the sliding window.
- `paging.dfy`: `Paging`, the page envelope and unchecked `int` skip count.
- `user_controller.dfy`: `Controllers`, the outcomes, creation logic and the
  `UserController` class.

Modelling choices. Where comments or expectations differ from the code, the
model follows the code:

- A `retryCount` of zero or less means four required failures
  (`UserController.cs:125`). It does not switch the gate off.
- An admitted request replaces the client's log by its recent entries plus
  `now` (`UserController.cs:64-65`). Old entries are pruned, not kept.
- The fallback culture is `"de"` (`CustomLocalizer.cs:34`), although the comment
  above it says English.
- `Split(',')` always yields at least one token, so the `?? "en"` at
  `UserController.cs:106` never applies. A missing or empty `Accept-Language`
  gives culture `""`, which reads as German.
- A controller is built for every request, and its constructor seeds an empty
  list (`UserController.cs:18-25`). So every handler runs on a list that starts
  with the two seed users, and the handlers require it (`Seeded()`);
  `SeedIfEmpty` establishes it.
- The attempt counter is reset only by a successful creation. A 422 leaves it
  where it was.

Inputs and outputs:

- The clock is the parameter `now`, in `DateTime` ticks (100 ns). The window is
  10 s = 100,000,000 ticks, inclusive. A timestamp later than `now` also counts
  as recent, as in the source.
- The 100 generated users are the parameter `generated`.
- The client name (`User.Identity.Name`) and the `Accept-Language` value are
  string parameters.
- Results are an `Outcome` value carrying the HTTP status instead of
  framework result objects.

## Model

| member | source | states |
|---|---|---|
| `Sequences.Filter` | DemoAPISourceCode/Controllers/UserController.cs:55 | `Where` keeps exactly the elements satisfying the predicate: membership iff, length never grows |
| `Sequences.FilterExact` | DemoAPISourceCode/Controllers/UserController.cs:155 | `Where` is order-preserving and exact: the result is a subsequence of the input, and each satisfying element occurs as often as in the input; no other element occurs |
| `Sequences.Skip` | DemoAPISourceCode/Controllers/UserController.cs:71 | `Skip(n)` drops the first `n` elements clamped to `0..count`: the rest, element for element |
| `Sequences.Take` | DemoAPISourceCode/Controllers/UserController.cs:71 | `Take(n)` keeps the first `n` elements clamped to `0..count`, element for element |
| `Text.Contains` | DemoAPISourceCode/Controllers/UserController.cs:155 | ordinal `string.Contains` holds iff the substring occurs at some index |
| `Text.FirstToken` | DemoAPISourceCode/Controllers/UserController.cs:106 | `Split(',')` first token: a prefix of the header without a comma, ending at the end or at the first comma |
| `Text.IntToDecimal` | DemoAPISourceCode/Controllers/UserController.cs:108 | the decimal text of an int is non-empty and starts with `-` exactly for a negative number |
| `Text.IntDecimalRoundTrip` | DemoAPISourceCode/Controllers/UserController.cs:108 | the decimal text of the id that `string.Format` inserts determines the id: parsing it gives the id back |
| `Text.NatDecimalRoundTrip` | DemoAPISourceCode/Controllers/UserController.cs:108 | parsing the digits of a non-negative number gives the number back |
| `Text.FormatShowsArgument` | DemoAPISourceCode/Controllers/UserController.cs:108 | formatting a template that has a `{0}` item yields a text containing the argument |
| `Text.Format` | DemoAPISourceCode/Controllers/UserController.cs:108 | a template without a `{0}` item comes back unchanged |
| `Text.FormatPlainText` | DemoAPISourceCode/Controllers/UserController.cs:108 | text without a `{` comes back from formatting unchanged |
| `Text.FormatSubstitutes` | DemoAPISourceCode/Controllers/UserController.cs:108 | for plain text `pre` and `post`, formatting `pre{0}post` with `arg` gives exactly `pre + arg + post` |
| `Localization.GetString` | DemoAPISourceCode/Localization/CustomLocalizer.cs:26-35 | direct hit gives the culture's entry; otherwise the `"de"` entry when it exists; otherwise the key itself |
| `Localization.UnknownCultureReadsAsFallback` | DemoAPISourceCode/Localization/CustomLocalizer.cs:28-34 | any culture absent from the table (`"fr"`, `""`) reads exactly like `"de"` |
| `Localization.ShippedKeysTranslated` | DemoAPISourceCode/Localization/CustomLocalizer.cs:9-34 | for `NotFound` and `UserNotFoundDetail` the result is the English entry iff the culture is `"en"`, else the German one, never the bare key |
| `Localization.DetailTemplateHasArgument` | DemoAPISourceCode/Localization/CustomLocalizer.cs:13-19 | for every culture the detail template has a `{0}` item |
| `Localization.DetailSentence` | DemoAPISourceCode/Localization/CustomLocalizer.cs:13-19 | formatting the `UserNotFoundDetail` entry with `arg` gives the English sentence with `arg` in place of `{0}` iff the culture is `en`, else the German one |
| `Users.FindById` | DemoAPISourceCode/Controllers/UserController.cs:103 | `FirstOrDefault` is empty iff no user has the id; otherwise it is the user at the first index with that id |
| `Users.FindByPosition` | DemoAPISourceCode/Controllers/UserController.cs:138-140 | on a list whose ids are the 1-based positions (as creation assigns them), the lookup succeeds iff `1 <= id <= count` and yields the user at `id - 1` |
| `RateLimiting.LogOf` | DemoAPISourceCode/Controllers/UserController.cs:50-53 | a known client's log, or the empty log for a client not yet in the map |
| `RateLimiting.Replay` | DemoAPISourceCode/Controllers/UserController.cs:43-65 | one decision per request, and the first is an admission iff fewer than 5 logged timestamps are in its window |
| `RateLimiting.Admit` | DemoAPISourceCode/Controllers/UserController.cs:55-65 | rejection iff at least 5 recent timestamps; on admission the new log has 1 to 5 entries and ends with `now`; before `now` it keeps, in their old order, every in-window timestamp of the old log as often as it was logged, and no other timestamp |
| `RateLimiting.AdmissionResumesAfterWindow` | DemoAPISourceCode/Controllers/UserController.cs:55-65 | once every logged timestamp is older than 10 s, the client is admitted and its log restarts as `[now]` |
| `RateLimiting.SpanAdmitsUpToLimit` | DemoAPISourceCode/Controllers/UserController.cs:47-65 | within one 10 s span, a client with `n <= 5` logged requests is admitted exactly for its next `5 - n` requests and rejected after that |
| `RateLimiting.FiveAdmittedPerSpan` | DemoAPISourceCode/Controllers/UserController.cs:47-65 | starting from an empty log, requests inside one 10 s span are admitted exactly for the first five |
| `RateLimiting.AdmittedAreReplayed` | DemoAPISourceCode/Controllers/UserController.cs:43-65 | the admitted timestamps of a run are exactly the requests whose replayed decision is an admission, in order |
| `RateLimiting.RecentOfRecent` | DemoAPISourceCode/Controllers/UserController.cs:55-65 | pruning at an earlier time keeps everything a later window counts |
| `RateLimiting.AdmitKeepsAgreement` | DemoAPISourceCode/Controllers/UserController.cs:55-65 | after an admission check, the pruned log and the full history of admitted requests agree on every later window |
| `RateLimiting.HistoryBound` | DemoAPISourceCode/Controllers/UserController.cs:47-65 | while log and history agree, no request sees more than 5 admitted requests in its window |
| `RateLimiting.AtMostFivePerWindow` | DemoAPISourceCode/Controllers/UserController.cs:47-65 | for time-ordered requests from an empty log, at most 5 admitted requests lie in the 10 s up to any request, inclusive |
| `Paging.CeilDiv` | DemoAPISourceCode/Controllers/UserController.cs:74 | `Math.Ceiling(total / pageSize)` is the least `q` with `total <= q * pageSize` |
| `Paging.WrapInt32` | DemoAPISourceCode/Controllers/UserController.cs:71 | unchecked `int` arithmetic: the result is in `int` range, congruent mod 2^32, unchanged when it fits |
| `Paging.SkipCountExact` | DemoAPISourceCode/Controllers/UserController.cs:71 | without overflow the skip count is `(pageNumber - 1) * pageSize` |
| `Paging.Paginate` | DemoAPISourceCode/Controllers/UserController.cs:71-82 | the envelope reports total `T`, `ceil(T/S)` pages (the least `q` with `T <= q*S`), the page number and size; the page is at most `S` elements of the list, taken in order from the skip count clamped to `0..T` |
| `Paging.PageContents` | DemoAPISourceCode/Controllers/UserController.cs:67-82 | for page `P >= 1` without overflow, the page is the slice of the list from index `(P-1)*S`, with `min(S, max(0, T-(P-1)*S))` elements |
| `Paging.PageNumberBelowOneIsFirstPage` | DemoAPISourceCode/Controllers/UserController.cs:71 | a page number of 1 or less (without overflow) gives the first page |
| `Paging.SkipCountWraps` | DemoAPISourceCode/Controllers/UserController.cs:71 | page 2^30+1 of size 4 overflows the skip count to 0 and returns the first page |
| `Controllers.EffectiveRetryCount` | DemoAPISourceCode/Controllers/UserController.cs:125 | the required failure count is the given count when that is positive and 4 otherwise |
| `Controllers.NotFoundProblem` | DemoAPISourceCode/Controllers/UserController.cs:106-116 | the miss body has status 404, the RFC 9110 type URI, the culture's `NotFound` title, and a detail that contains the decimal id |
| `Controllers.NotFoundProblemLocalized` | DemoAPISourceCode/Controllers/UserController.cs:106-116 | the miss body has status 404 and the RFC 9110 type URI; its detail is "A user with id <id> could not be found. ..." and the title "Not Found" iff the first language token is `en`, otherwise the German sentence with the id and "Nicht gefunden"; either way the detail contains the decimal id |
| `Controllers.Create` | DemoAPISourceCode/Controllers/UserController.cs:123-145 | 408 iff the gate trips, which bumps the counter by 1 and keeps the list; 422 iff past the gate with `Active == true`, which changes nothing; otherwise the list gets one appended user with id `count + 1`, `Active = false` and the candidate's other fields, earlier users are unchanged, and the counter is 0 |
| `Controllers.CreateKeepsIdsPositions` | DemoAPISourceCode/Controllers/UserController.cs:138-140 | creation keeps every id equal to its 1-based position |
| `Controllers.RetryGateCountsUp` | DemoAPISourceCode/Controllers/UserController.cs:127-130 | while failure is simulated and the counter stays at most `k`, each request is 408, adds 1 to the counter and keeps the list |
| `Controllers.RepeatSplit` | DemoAPISourceCode/Controllers/UserController.cs:123-145 | `n + 1` consecutive creations are `n` creations followed by one more |
| `Controllers.RetryThenSucceed` | DemoAPISourceCode/Controllers/UserController.cs:125-142 | from counter 0 the first `k` requests are 408 and request `k + 1` stores the inactive user with the next id and resets the counter to 0 |
| `Controllers.NonPositiveRetryCountFailsFourTimes` | DemoAPISourceCode/Controllers/UserController.cs:125-130 | a retry count of 0 or less still gives four 408 answers in a row |
| `Controllers.UserController.constructor` | DemoAPISourceCode/Controllers/UserController.cs:13-16 | the static state starts as an empty list, a zero counter and an empty log |
| `Controllers.UserController.SeedIfEmpty` | DemoAPISourceCode/Controllers/UserController.cs:21-25 | an empty list receives the two seed users (ids 1 and 2); a non-empty list, the counter and the log are unchanged; afterwards the list starts with the seeds |
| `Controllers.UserController.GetUsers` | DemoAPISourceCode/Controllers/UserController.cs:43-89 | without the flag: the whole list, whatever the paging parameters. Rejection: 429 with Retry-After 10 and the log unchanged. Admission: the client's log becomes its recent entries plus `now`, no other client's log changes, and the answer is the page of the 102-user working set. The list and counter never change |
| `Controllers.UserController.GetUser` | DemoAPISourceCode/Controllers/UserController.cs:101-119 | the first user with the id when one exists; otherwise the localized 404 problem for the first `Accept-Language` token |
| `Controllers.UserController.GetUserByPosition` | DemoAPISourceCode/Controllers/UserController.cs:101-119 | in a valid state the lookup succeeds iff `1 <= id <= count` and returns the user at `id - 1`, otherwise the 404 problem |
| `Controllers.UserController.CreateUser` | DemoAPISourceCode/Controllers/UserController.cs:123-145 | answer, list and counter are those of `Create` on the old state; the request log is untouched; ids stay positional and the seeds stay first, so a stored user gets an id above 2 |
| `Controllers.UserController.SearchUsers` | DemoAPISourceCode/Controllers/UserController.cs:149-165 | a null or empty filter answers the whole list; otherwise exactly the users whose e-mail contains the filter; when none match, the plain message `User with email <filter> not found` |
| `Controllers.UserController.SearchIsOrderedFilter` | DemoAPISourceCode/Controllers/UserController.cs:151-158 | with a non-empty filter the result is the matching users in list order, each as often as in the list |
| `Controllers.UserController.SeedsAlwaysServed` | DemoAPISourceCode/Controllers/UserController.cs:18-25 | since every request seeds an empty list, ids 1 and 2 always find the two seed users and an unfiltered search starts with them |

## Left out

- Random user generation (`GenerateFakeUsers`, Bogus) is not modelled. The 100
  generated users are an input sequence, so their ids and e-mails are arbitrary.
- Wall-clock reads (`DateTime.UtcNow`) are replaced by one `now` parameter. The
  source reads the clock once per logged entry and once more when appending, a
  few ticks apart.
- `TotalSeconds` is a double, but the window test is done on integer ticks. The
  two agree because tick differences up to 10^8 are exact in a double.
- `Paging.CeilDiv`: the double division inside `Math.Ceiling` is computed
  exactly. The model requires `pageSize >= 1`. A zero or negative page size goes
  through floating-point infinity or negative counts and is not modelled.
- `Controllers.UserController.GetUsers`: requires `pageSize >= 1` when rate
  limiting is simulated, for the same reason. Without it the paging parameters
  are not used.
- Overflow of `_users.Count + 1` and of `_attemptCount++` is not modelled. The
  counter is only bumped while below a retry count that fits in an `int`, so it
  cannot overflow. The list cannot reach 2^31 entries.
- ASP.NET plumbing is replaced by parameters and the `Outcome` value: routing,
  `[Authorize]` role checks, `Response.Headers`, the `Problem(...)` and
  `Content(...)` result objects, and header binding. Default binding values
  (`pageNumber = 1`, `pageSize = 10`) belong to this layer.
- Concurrency is not modelled. The static fields are shared by request threads
  without locking; the model runs the handlers one at a time on one state
  object.
- Null strings are not modelled. The C# `string` fields of `User` may be
  `null`, for example a created user without an e-mail, which would make the
  search throw. Strings are never null in the model.
- `string.Format` is modelled for templates whose only format item is `{0}`,
  which are the ones in the table. Escaped braces and other items are not
  handled. `int.ToString` is modelled as invariant-culture decimal.
- Multiple `Accept-Language` header values are joined with commas by
  `StringValues.ToString()`. The model takes the joined string as its input.
- `TestConnection` (`UserController.cs:92-97`) only answers 200 and is not
  modelled.
- `AuthController.cs`, `RolesController.cs`, `Program.cs` and
  `AcceptLanguageHeaderOperationFilter.cs` are not part of this model. They are
  token issuance, a constant role list or `Forbid()`, host configuration, and
  API documentation metadata.
