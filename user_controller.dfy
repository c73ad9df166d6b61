/**
 * UserController: the process-wide user list, retry-gate counter and
 * per-client request log, and the four request handlers that read and
 * change them (listing with rate limiting and paging, lookup by id,
 * creation behind a retry gate, search by e-mail).
 */
module Controllers {

  import opened Wrappers
  import Text
  import Localization
  import Users
  import RateLimiting
  import Paging
  import Sequences

  type User = Users.User

  /** The problem body of a 404 from the lookup by id. */
  datatype ProblemDetails = ProblemDetails(typeUri: string, title: string, detail: string, status: int)

  /** What a handler answers, in place of the framework's result objects. */
  datatype Outcome =
    | OkUsers(users: seq<User>)                          // 200 with a list
    | OkPage(page: Paging.Page<User>)                    // 200 with a paging envelope
    | OkUser(user: User)                                 // 200 with one user
    | TooManyRequests(retryAfter: nat, message: string)  // 429 with Retry-After
    | RequestTimeout(message: string)                    // 408
    | Unprocessable(message: string)                     // 422
    | NotFoundMessage(message: string)                   // 404 with a plain message
    | Problem(problem: ProblemDetails)                   // a problem body with its own status
  {
    /** The HTTP status code the outcome is sent with. */
    function Status(): int
    {
      match this
      case OkUsers(_) => 200
      case OkPage(_) => 200
      case OkUser(_) => 200
      case TooManyRequests(_, _) => 429
      case RequestTimeout(_) => 408
      case Unprocessable(_) => 422
      case NotFoundMessage(_) => 404
      case Problem(p) => p.status
    }
  }

  const TooManyRequestsMessage: string := "Too many requests. Please try again later."
  const RequestTimeoutMessage: string := "Request Timeout"
  const ActiveOnCreateMessage: string := "Not allowed to set property [active] during creation"

  /** The type URI of a 404, section 15.5.5 of RFC 9110. */
  const NotFoundTypeUri: string := "https://tools.ietf.org/html/rfc9110#section-15.5.5"

  /** The number of randomly generated users added to the listing's working set. */
  const GeneratedCount: nat := 100

  /** The retry count used when the request gives none or a non-positive one. */
  const DefaultRetryCount: int := 4

  /** The number of failures the gate simulates: the request's count, or four when that is not positive. */
  function EffectiveRetryCount(retryCount: int): (k: int)
    ensures k >= 1
    ensures retryCount > 0 ==> k == retryCount
    ensures retryCount <= 0 ==> k == DefaultRetryCount
  {
    if retryCount <= 0 then DefaultRetryCount else retryCount
  }

  /** The retry gate trips: failure is simulated and fewer attempts than required were made. */
  predicate GateTrips(simulateFailure: bool, attemptCount: int, retryCount: int)
  {
    simulateFailure && attemptCount < EffectiveRetryCount(retryCount)
  }

  /** The culture named by an `Accept-Language` value: its first comma-separated token. */
  function CultureOf(acceptLanguage: string): string
  {
    Text.FirstToken(acceptLanguage)
  }

  /** The localized problem body for a user id that is not in the list. */
  function NotFoundProblem(id: int, culture: string): (p: ProblemDetails)
    ensures p.status == 404 && p.typeUri == NotFoundTypeUri
    ensures p.title == Localization.GetString("NotFound", culture)
    ensures Text.Contains(p.detail, Text.IntToDecimal(id))
  {
    Localization.DetailTemplateHasArgument(culture);
    Text.FormatShowsArgument(
      Localization.GetString("UserNotFoundDetail", culture), Text.IntToDecimal(id));
    ProblemDetails(
      NotFoundTypeUri,
      Localization.GetString("NotFound", culture),
      Text.Format(Localization.GetString("UserNotFoundDetail", culture), Text.IntToDecimal(id)),
      404)
  }

  /**
   * Whatever the `Accept-Language` value, the not-found problem has status
   * 404 and the RFC 9110 type URI, its detail shows the requested id, and
   * it is English exactly when the first language token is "en" and German
   * otherwise (an empty header too).
   */
  lemma NotFoundProblemLocalized(id: int, acceptLanguage: string)
    ensures var p := NotFoundProblem(id, CultureOf(acceptLanguage));
            && p.status == 404
            && p.typeUri == NotFoundTypeUri
            && Text.Contains(p.detail, Text.IntToDecimal(id))
            && (CultureOf(acceptLanguage) == "en" ==> p.title == "Not Found")
            && (CultureOf(acceptLanguage) != "en" ==> p.title == "Nicht gefunden")
            && (CultureOf(acceptLanguage) == "en" ==>
                  p.detail == Localization.EnglishDetailPrefix + Text.IntToDecimal(id)
                              + Localization.EnglishDetailSuffix)
            && (CultureOf(acceptLanguage) != "en" ==>
                  p.detail == Localization.GermanDetailPrefix + Text.IntToDecimal(id)
                              + Localization.GermanDetailSuffix)
  {
    Localization.ShippedKeysTranslated("NotFound", CultureOf(acceptLanguage));
    Localization.DetailSentence(CultureOf(acceptLanguage), Text.IntToDecimal(id));
  }

  /** The state a creation request leaves behind, with its answer. */
  datatype CreateStep = CreateStep(outcome: Outcome, users: seq<User>, attemptCount: int)

  /**
   * `CreateUser` on the user list and attempt counter: a tripped gate bumps
   * the counter and answers 408; a candidate that is already active gets
   * 422; otherwise the candidate is stored with the next id and inactive,
   * and the counter is reset. Only a stored user changes the list.
   */
  function Create(users: seq<User>, attemptCount: int, candidate: User,
                  simulateFailure: bool, retryCount: int): (s: CreateStep)
    ensures s.outcome.RequestTimeout? <==> GateTrips(simulateFailure, attemptCount, retryCount)
    ensures s.outcome.RequestTimeout? ==> s.users == users && s.attemptCount == attemptCount + 1
    ensures s.outcome.Unprocessable? <==>
              !GateTrips(simulateFailure, attemptCount, retryCount) && candidate.active == Some(true)
    ensures s.outcome.Unprocessable? ==> s.users == users && s.attemptCount == attemptCount
    ensures s.outcome.OkUser? <==>
              !GateTrips(simulateFailure, attemptCount, retryCount) && candidate.active != Some(true)
    ensures s.outcome.OkUser? ==>
              && |s.users| == |users| + 1
              && s.users[..|users|] == users
              && s.outcome.user == s.users[|users|]
              && s.outcome.user == candidate.(id := |users| + 1, active := Some(false))
              && s.attemptCount == 0
  {
    if GateTrips(simulateFailure, attemptCount, retryCount) then
      CreateStep(RequestTimeout(RequestTimeoutMessage), users, attemptCount + 1)
    else if candidate.active == Some(true) then
      CreateStep(Unprocessable(ActiveOnCreateMessage), users, attemptCount)
    else
      var stored := candidate.(id := |users| + 1, active := Some(false));
      assert (users + [stored])[..|users|] == users;
      CreateStep(OkUser(stored), users + [stored], 0)
  }

  /** A creation keeps the identifiers equal to the 1-based positions. */
  lemma CreateKeepsIdsPositions(users: seq<User>, attemptCount: int, candidate: User,
                                simulateFailure: bool, retryCount: int)
    requires Users.IdsArePositions(users)
    ensures Users.IdsArePositions(Create(users, attemptCount, candidate, simulateFailure, retryCount).users)
  {
  }

  /** The answers and final state of `n` creation requests with the same arguments. */
  datatype Run = Run(outcomes: seq<Outcome>, users: seq<User>, attemptCount: int)

  function RepeatCreate(users: seq<User>, attemptCount: int, candidate: User,
                        simulateFailure: bool, retryCount: int, n: nat): (r: Run)
    ensures |r.outcomes| == n
    decreases n
  {
    if n == 0 then Run([], users, attemptCount)
    else
      var s := Create(users, attemptCount, candidate, simulateFailure, retryCount);
      var rest := RepeatCreate(s.users, s.attemptCount, candidate, simulateFailure, retryCount, n - 1);
      Run([s.outcome] + rest.outcomes, rest.users, rest.attemptCount)
  }

  /**
   * While failure is simulated and the counter stays at or below the
   * required count `k`, each request answers 408, raises the counter by
   * one and leaves the list alone.
   */
  lemma {:induction false} RetryGateCountsUp(users: seq<User>, attemptCount: int, candidate: User,
                                             retryCount: int, n: nat)
    requires attemptCount + n <= EffectiveRetryCount(retryCount)
    ensures var r := RepeatCreate(users, attemptCount, candidate, true, retryCount, n);
            && (forall i :: 0 <= i < n ==> r.outcomes[i] == RequestTimeout(RequestTimeoutMessage))
            && r.users == users
            && r.attemptCount == attemptCount + n
    decreases n
  {
    if n > 0 {
      RetryGateCountsUp(users, attemptCount + 1, candidate, retryCount, n - 1);
      var r := RepeatCreate(users, attemptCount, candidate, true, retryCount, n);
      var rest := RepeatCreate(users, attemptCount + 1, candidate, true, retryCount, n - 1);
      assert r.outcomes == [RequestTimeout(RequestTimeoutMessage)] + rest.outcomes;
    }
  }

  /**
   * From a counter of zero, with `k` the effective retry count, the first
   * `k` requests answer 408 and request `k + 1` passes the gate: an inactive
   * or unset candidate is then stored and the counter is back at zero, so
   * the next `k` requests fail again.
   */
  lemma {:induction false} RetryThenSucceed(users: seq<User>, candidate: User, retryCount: int)
    requires candidate.active != Some(true)
    ensures var k := EffectiveRetryCount(retryCount);
            var r := RepeatCreate(users, 0, candidate, true, retryCount, k + 1);
            && (forall i :: 0 <= i < k ==> r.outcomes[i] == RequestTimeout(RequestTimeoutMessage))
            && r.outcomes[k] == OkUser(candidate.(id := |users| + 1, active := Some(false)))
            && r.users == users + [r.outcomes[k].user]
            && r.attemptCount == 0
  {
    var k := EffectiveRetryCount(retryCount);
    var first := RepeatCreate(users, 0, candidate, true, retryCount, k);
    RetryGateCountsUp(users, 0, candidate, retryCount, k);
    var last := Create(users, k, candidate, true, retryCount);
    assert !GateTrips(true, k, retryCount);
    assert last.outcome.OkUser?;
    assert last.users == users + [last.outcome.user] by {
      assert last.users == last.users[..|users|] + [last.users[|users|]];
    }
    RepeatSplit(users, 0, candidate, true, retryCount, k);
    var r := RepeatCreate(users, 0, candidate, true, retryCount, k + 1);
    assert r == Run(first.outcomes + [last.outcome], last.users, last.attemptCount);
    assert forall i :: 0 <= i < k ==> r.outcomes[i] == first.outcomes[i];
  }

  /** `n + 1` requests are `n` requests followed by one more. */
  lemma {:induction false} RepeatSplit(users: seq<User>, attemptCount: int, candidate: User,
                                       simulateFailure: bool, retryCount: int, n: nat)
    ensures var first := RepeatCreate(users, attemptCount, candidate, simulateFailure, retryCount, n);
            var last := Create(first.users, first.attemptCount, candidate, simulateFailure, retryCount);
            RepeatCreate(users, attemptCount, candidate, simulateFailure, retryCount, n + 1)
              == Run(first.outcomes + [last.outcome], last.users, last.attemptCount)
    decreases n
  {
    if n > 0 {
      var s := Create(users, attemptCount, candidate, simulateFailure, retryCount);
      RepeatSplit(s.users, s.attemptCount, candidate, simulateFailure, retryCount, n - 1);
      var rest := RepeatCreate(s.users, s.attemptCount, candidate, simulateFailure, retryCount, n - 1);
      var last := Create(rest.users, rest.attemptCount, candidate, simulateFailure, retryCount);
      assert [s.outcome] + (rest.outcomes + [last.outcome])
          == ([s.outcome] + rest.outcomes) + [last.outcome];
    }
  }

  /** A retry count of zero or less does not turn the gate off: it stands for four. */
  lemma NonPositiveRetryCountFailsFourTimes(users: seq<User>, candidate: User, retryCount: int)
    requires retryCount <= 0
    ensures var r := RepeatCreate(users, 0, candidate, true, retryCount, 4);
            forall i :: 0 <= i < 4 ==> r.outcomes[i].Status() == 408
  {
    RetryGateCountsUp(users, 0, candidate, retryCount, 4);
  }

  /** The search answers everything when the filter is null or empty. */
  predicate NoFilter(email: Option<string>)
  {
    email.None? || email.value == ""
  }

  /** A user passes the search filter. */
  predicate MatchesFilter(email: Option<string>, u: User)
  {
    NoFilter(email) || Text.Contains(u.email, email.value)
  }

  /** The filter as it appears in the not-found message (a null filter shows as nothing). */
  function ShownFilter(email: Option<string>): string
  {
    if email.None? then "" else email.value
  }

  /**
   * The process-wide state of the controller: the user list, the retry-gate
   * counter and the per-client log of admitted listing requests.
   */
  class UserController {
    var users: seq<User>
    var attemptCount: int
    var requestLog: map<string, seq<int>>

    /**
     * Identifiers are the 1-based positions in the list, the list is either
     * still empty or starts with the two seed users, the counter is never
     * negative, and no client has more than five logged requests.
     */
    ghost predicate Valid()
      reads this
    {
      && Users.IdsArePositions(users)
      && (users == [] || Seeded())
      && attemptCount >= 0
      && forall c :: c in requestLog ==> |requestLog[c]| <= RateLimiting.MaxRequestsPerWindow
    }

    /** The list starts with the two seed users. */
    ghost predicate Seeded()
      reads this
    {
      |users| >= 2 && users[..2] == Users.Seeds
    }

    /** The static initialisers: an empty list, a zero counter and an empty log. */
    constructor ()
      ensures Valid()
      ensures users == [] && attemptCount == 0 && requestLog == map[]
    {
      users := [];
      attemptCount := 0;
      requestLog := map[];
    }

    /**
     * The instance constructor: seeds the two users when the list is empty.
     * A controller is built for every request, so every handler below runs
     * after this step, on a seeded list.
     */
    method SeedIfEmpty()
      requires Valid()
      modifies this
      ensures Valid() && Seeded()
      ensures users == if old(users) == [] then Users.Seeds else old(users)
      ensures attemptCount == old(attemptCount) && requestLog == old(requestLog)
    {
      if |users| == 0 {
        users := users + [Users.Alicia];
        users := users + [Users.Bram];
      }
    }

    /**
     * `GetUsers`. Without rate limiting: the whole list. With it: the
     * client's admission check; a rejection answers 429 with Retry-After 10
     * and leaves the log alone; an admission replaces the client's log by its
     * recent requests followed by `now` (no other client's log changes) and
     * answers the requested page of the generated users plus the two seeds.
     */
    method GetUsers(simulateRateLimiting: bool, client: string, now: int, generated: seq<User>,
                    pageNumber: int, pageSize: int) returns (o: Outcome)
      requires Valid() && Seeded()
      requires |generated| == GeneratedCount
      requires Paging.IsInt32(pageNumber) && Paging.IsInt32(pageSize)
      requires simulateRateLimiting ==> pageSize >= 1
      modifies this
      ensures Valid() && Seeded()
      ensures users == old(users) && attemptCount == old(attemptCount)
      ensures !simulateRateLimiting ==> o == OkUsers(users) && requestLog == old(requestLog)
      ensures simulateRateLimiting ==>
                match RateLimiting.Admit(RateLimiting.LogOf(old(requestLog), client), now)
                case None =>
                  && o == TooManyRequests(RateLimiting.RetryAfterSeconds, TooManyRequestsMessage)
                  && requestLog == old(requestLog)
                case Some(log) =>
                  && requestLog == old(requestLog)[client := log]
                  && o == OkPage(Paging.Paginate(generated + Users.Seeds, pageNumber, pageSize))
                  && o.page.totalUsers == GeneratedCount + 2
    {
      if !simulateRateLimiting {
        return OkUsers(users);
      }
      if client !in requestLog {
        requestLog := requestLog[client := []];
      }
      var recent := RateLimiting.Recent(requestLog[client], now);
      if |recent| >= RateLimiting.MaxRequestsPerWindow {
        // A client created just above has no requests, so it is never rejected.
        assert client in old(requestLog);
        return TooManyRequests(RateLimiting.RetryAfterSeconds, TooManyRequestsMessage);
      }
      requestLog := requestLog[client := recent + [now]];
      var working := generated + Users.Seeds;
      o := OkPage(Paging.Paginate(working, pageNumber, pageSize));
    }

    /**
     * `GetUser`: the first user with the id, or, when there is none, the
     * 404 problem body in the culture of the first `Accept-Language` token.
     */
    function GetUser(id: int, acceptLanguage: string): (o: Outcome)
      requires Seeded()
      reads this
      ensures o.OkUser? <==> exists i :: 0 <= i < |users| && users[i].id == id
      ensures o.OkUser? ==> exists i :: Users.IsFirstWithId(users, id, i) && users[i] == o.user
      ensures o.Problem? <==> !o.OkUser?
      ensures o.Problem? ==> o.problem == NotFoundProblem(id, CultureOf(acceptLanguage))
    {
      match Users.FindById(users, id)
      case Some(u) => OkUser(u)
      case None => Problem(NotFoundProblem(id, CultureOf(acceptLanguage)))
    }

    /**
     * On a valid state the lookup by id succeeds exactly for the ids
     * `1 .. |users|`, and finds the user at position `id - 1`.
     */
    lemma GetUserByPosition(id: int, acceptLanguage: string)
      requires Valid() && Seeded()
      ensures GetUser(id, acceptLanguage) ==
                if 1 <= id <= |users| then OkUser(users[id - 1])
                else Problem(NotFoundProblem(id, CultureOf(acceptLanguage)))
    {
      Users.FindByPosition(users, id);
    }

    /**
     * `CreateUser`: the answer, list and counter are those of `Create`;
     * the request log is untouched.
     */
    method CreateUser(candidate: User, simulateFailure: bool, retryCount: int) returns (o: Outcome)
      requires Valid() && Seeded()
      modifies this
      ensures Valid() && Seeded()
      ensures o.OkUser? ==> o.user.id > |Users.Seeds|
      ensures var s := Create(old(users), old(attemptCount), candidate, simulateFailure, retryCount);
              o == s.outcome && users == s.users && attemptCount == s.attemptCount
      ensures requestLog == old(requestLog)
    {
      var k := retryCount;
      if k <= 0 {
        k := DefaultRetryCount;
      }
      if simulateFailure && attemptCount < k {
        attemptCount := attemptCount + 1;
        return RequestTimeout(RequestTimeoutMessage);
      }
      if candidate.active == Some(true) {
        return Unprocessable(ActiveOnCreateMessage);
      }
      var stored := candidate.(id := |users| + 1, active := Some(false));
      CreateKeepsIdsPositions(users, attemptCount, candidate, simulateFailure, retryCount);
      assert (users + [stored])[..2] == users[..2];
      users := users + [stored];
      attemptCount := 0;
      o := OkUser(stored);
    }

    /**
     * `SearchUsers`: the users passing the filter, in list order; a plain
     * not-found message naming the filter when none does.
     */
    function SearchUsers(email: Option<string>): (o: Outcome)
      requires Seeded()
      reads this
      ensures o.OkUsers? || o.NotFoundMessage?
      ensures o.NotFoundMessage? <==> forall u :: u in users ==> !MatchesFilter(email, u)
      ensures o.NotFoundMessage? ==> o.message == "User with email " + ShownFilter(email) + " not found"
      ensures o.OkUsers? ==> forall u :: u in o.users <==> u in users && MatchesFilter(email, u)
      ensures o.OkUsers? && NoFilter(email) ==> o.users == users
    {
      var result := if NoFilter(email) then users else Users.WithEmail(users, email.value);
      if |result| == 0 then NotFoundMessage("User with email " + ShownFilter(email) + " not found")
      else
        assert result[0] in result;
        OkUsers(result)
    }
  
    /**
     * With a non-empty filter the search result is exactly the matching
     * users in list order: a subsequence of the list that keeps every
     * matching user as often as it occurs and no other user.
     */
    lemma SearchIsOrderedFilter(email: string)
      requires Seeded()
      requires email != ""
      ensures SearchUsers(Some(email)).OkUsers? ==>
                var r := SearchUsers(Some(email)).users;
                && Sequences.IsSubsequence(r, users)
                && forall u :: multiset(r)[u] ==
                     if Text.Contains(u.email, email) then multiset(users)[u] else 0
    {
      Sequences.FilterExact(users, Users.EmailContains(email));
    }

    /**
     * Because every request seeds an empty list first, the seed users are
     * always there: ids 1 and 2 find them, and an unfiltered search starts
     * with them.
     */
    lemma SeedsAlwaysServed(acceptLanguage: string)
      requires Valid() && Seeded()
      ensures GetUser(1, acceptLanguage) == OkUser(Users.Alicia)
      ensures GetUser(2, acceptLanguage) == OkUser(Users.Bram)
      ensures SearchUsers(None).OkUsers? && SearchUsers(None).users[..2] == Users.Seeds
    {
      GetUserByPosition(1, acceptLanguage);
      GetUserByPosition(2, acceptLanguage);
      assert users[0] == users[..2][0] && users[1] == users[..2][1];
    }
  }
}
