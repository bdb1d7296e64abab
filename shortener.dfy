/** The shortening service: the create flow (validate the URL, find a free
    short ID by generate-and-check, insert one record) and the resolve flow
    (look an ID up and redirect, report not-found, or report a read error).

    The `urls` table is an in-memory map from short ID to record. What the
    database, the clock and the random source would decide is injected:
    an `Env` per create request and a `readFails` flag per resolve request.
 */
module Shortener {
  import opened ShortId

  /** One row of the `urls` table; `id` is the primary key. */
  datatype ShortURL = ShortURL(id: string, original: string, createdAt: int)

  /** The `urls` table, keyed by `id`. */
  type Store = map<string, ShortURL>

  /** What `SELECT ... WHERE id = ?` reports: the row, "no rows", or any
      other error of the database. */
  datatype Lookup = Found(record: ShortURL) | NoRows | ReadError

  /** The read both handlers issue. `fails` says whether the database errs. */
  function Select(store: Store, id: string, fails: bool): (r: Lookup)
    ensures r.ReadError? <==> fails
    ensures r.Found? <==> !fails && id in store
    ensures r.Found? ==> r.record == store[id]
    ensures r.NoRows? <==> !fails && id !in store
  {
    if fails then ReadError
    else if id in store then Found(store[id])
    else NoRows
  }

  /** The outcome of a create request, before it is turned into a response. */
  datatype ShortenOutcome =
    | Shortened(id: string)      // 200, the short URL is built from `id`
    | InvalidUrl                 // 400 "Invalid URL"
    | LookupFailed               // 500 "Database error"
    | SaveFailed                 // 500 "Failed to save URL"
    | CandidatesExhausted        // only in the model: the injected draws ran out
  {
    /** The HTTP status the handler answers with. */
    function Status(): (code: int)
      requires !CandidatesExhausted?
      ensures code == 200 <==> Shortened?
      ensures code == 400 <==> InvalidUrl?
      ensures code == 500 <==> LookupFailed? || SaveFailed?
    {
      match this
      case Shortened(_) => 200
      case InvalidUrl => 400
      case LookupFailed => 500
      case SaveFailed => 500
    }

    /** The `error` field of the JSON response. */
    function Message(): (text: string)
      requires !Shortened? && !CandidatesExhausted?
      ensures text == "Invalid URL" <==> InvalidUrl?
      ensures text == "Database error" <==> LookupFailed?
      ensures text == "Failed to save URL" <==> SaveFailed?
    {
      match this
      case InvalidUrl => "Invalid URL"
      case LookupFailed => "Database error"
      case SaveFailed => "Failed to save URL"
    }
  }

  /** The outcome of a resolve request. */
  datatype RedirectOutcome =
    | Redirect(target: string)   // 301 to `target`
    | NotFound                   // 404 "Short URL not found"
    | ReadFailed                 // 500 "Database error"
  {
    /** The HTTP status the handler answers with. */
    function Status(): (code: int)
      ensures code == 301 <==> Redirect?
      ensures code == 404 <==> NotFound?
      ensures code == 500 <==> ReadFailed?
    {
      match this
      case Redirect(_) => 301
      case NotFound => 404
      case ReadFailed => 500
    }

    /** The `error` field of the JSON response. */
    function Message(): (text: string)
      requires !Redirect?
      ensures text == "Short URL not found" <==> NotFound?
      ensures text == "Database error" <==> ReadFailed?
    {
      match this
      case NotFound => "Short URL not found"
      case ReadFailed => "Database error"
    }
  }

  /** What the environment decides during one create request: the random
      draws (consumed `IdLength` per candidate), the numbers of the lookups
      (counted from 0) that fail with an error other than "no rows", whether
      the insert fails, and the clock reading stored as `createdAt`. */
  datatype Env = Env(draws: seq<int>, failingLookups: set<nat>, insertFails: bool, now: int)

  /** `strings.HasPrefix`. */
  function HasPrefix(s: string, prefix: string): (r: bool)
    ensures r <==> prefix <= s
  {
    |prefix| <= |s| && s[..|prefix|] == prefix
  }

  /** The create request's URL check: the scheme is `http` or `https`. */
  function ValidScheme(url: string): (r: bool)
    ensures r <==> "http://" <= url || "https://" <= url
    ensures r ==> |url| >= 7 && url[..4] == "http"
  {
    HasPrefix(url, "http://") || HasPrefix(url, "https://")
  }

  /** Where the generate-and-check loop ends, with the number of lookups it
      issued. */
  datatype Search =
    | Free(id: string, at: nat)     // lookup number `at` reported "no rows"
    | LookupError(at: nat)          // lookup number `at` failed
    | OutOfDraws(lookups: nat)      // the draws ran out after `lookups` lookups
  {
    /** How many lookups the loop issued. */
    function Lookups(): nat {
      if OutOfDraws? then lookups else at + 1
    }
  }

  /** The candidate `generateShortID(6)` builds from the next draws. */
  function Candidate(draws: seq<int>): (id: string)
    requires ValidDraws(draws) && IdLength <= |draws|
    ensures IsShortId(id)
  {
    IdFromDraws(draws[..IdLength])
  }

  /** The candidates the generate-and-check loop tries, in order, one per
      `IdLength` draws, for as long as the draws last. */
  function Candidates(draws: seq<int>): (cs: seq<string>)
    requires ValidDraws(draws)
    ensures forall j :: 0 <= j < |cs| ==> IsShortId(cs[j])
    ensures |draws| < IdLength <==> cs == []
    decreases |draws|
  {
    if |draws| < IdLength then []
    else
      RemainingDrawsValid(draws, IdLength);
      [Candidate(draws)] + Candidates(draws[IdLength..])
  }

  /** A slice of a suffix is a slice of the whole, shifted. */
  lemma SliceOfSuffix(s: seq<int>, n: nat, i: nat)
    requires n + i + n <= |s|
    ensures s[n..][i .. i + n] == s[n + i .. n + i + n]
  {
  }

  /** There is one candidate per whole `IdLength` draws. */
  lemma {:induction false} CandidatesCount(draws: seq<int>)
    requires ValidDraws(draws)
    ensures |Candidates(draws)| == |draws| / IdLength
    decreases |draws|
  {
    if |draws| >= IdLength {
      RemainingDrawsValid(draws, IdLength);
      CandidatesCount(draws[IdLength..]);
    }
  }

  /** Candidate `j` is built from draws `j * IdLength` to
      `j * IdLength + IdLength - 1`. */
  lemma {:induction false} CandidatesAt(draws: seq<int>, j: nat)
    requires ValidDraws(draws)
    ensures j < |Candidates(draws)| ==>
              && j * IdLength + IdLength <= |draws|
              && Candidates(draws)[j] == IdFromDraws(draws[j * IdLength .. j * IdLength + IdLength])
    decreases j
  {
    if j < |Candidates(draws)| {
      RemainingDrawsValid(draws, IdLength);
      var rest := draws[IdLength..];
      assert Candidates(draws) == [Candidate(draws)] + Candidates(rest);
      var start := j * IdLength;
      if j == 0 {
        assert start == 0;
        assert draws[start .. start + IdLength] == draws[..IdLength];
      } else {
        CandidatesAt(rest, j - 1);
        var i := (j - 1) * IdLength;
        assert start == IdLength + i;
        SliceOfSuffix(draws, IdLength, i);
        assert rest[i .. i + IdLength] == draws[start .. start + IdLength];
        assert Candidates(draws)[j] == Candidates(rest)[j - 1];
      }
    }
  }

  /** The first `k` candidates, looked up as numbers `attempt` to
      `attempt + k - 1`, each found a row (a collision) and none failed. */
  predicate CollidedWithoutError(store: Store, cs: seq<string>, failing: set<nat>, attempt: nat, k: int) {
    && 0 <= k <= |cs|
    && (forall j :: 0 <= j < k ==> cs[j] in store)
    && (forall n :: attempt <= n < attempt + k ==> n !in failing)
  }

  /** The history behind each end of the loop: every lookup before the
      deciding one was a collision without error; the loop stops on the
      first lookup that fails or reports "no rows", and runs out only after
      every candidate collided. */
  predicate Traced(store: Store, cs: seq<string>, failing: set<nat>, attempt: nat, r: Search) {
    match r
    case Free(id, at) =>
      attempt <= at && at - attempt < |cs| && id == cs[at - attempt]
      && at !in failing && id !in store
      && CollidedWithoutError(store, cs, failing, attempt, at - attempt)
    case LookupError(at) =>
      attempt <= at && at - attempt < |cs| && at in failing
      && CollidedWithoutError(store, cs, failing, attempt, at - attempt)
    case OutOfDraws(n) =>
      n == attempt + |cs| && CollidedWithoutError(store, cs, failing, attempt, |cs|)
  }

  /** The generate-and-check loop from lookup number `attempt` on: generate a
      candidate from the next `IdLength` draws and look it up; a row means a
      collision, so try again; "no rows" ends the search; any other error
      aborts it. */
  function FindFreeId(store: Store, draws: seq<int>, failing: set<nat>, attempt: nat): (r: Search)
    requires ValidDraws(draws)
    ensures r.OutOfDraws? ==> attempt <= r.lookups
    ensures r.Free? ==> IsShortId(r.id) && r.id !in store && attempt <= r.at && r.at !in failing
    ensures r.LookupError? ==> attempt <= r.at && r.at in failing
    decreases |draws|
  {
    if |draws| < IdLength then OutOfDraws(attempt)
    else
      var candidate := Candidate(draws);
      var row := Select(store, candidate, attempt in failing);
      if row.ReadError? then LookupError(attempt)
      else if row.NoRows? then Free(candidate, attempt)
      else
        RemainingDrawsValid(draws, IdLength);
        FindFreeId(store, draws[IdLength..], failing, attempt + 1)
  }

  /** A collision without error on lookup `attempt` extends a run of them
      on the lookups that follow. */
  lemma CollidedCons(store: Store, c: string, cs: seq<string>, failing: set<nat>, attempt: nat, k: nat)
    requires c in store && attempt !in failing
    requires CollidedWithoutError(store, cs, failing, attempt + 1, k)
    ensures CollidedWithoutError(store, [c] + cs, failing, attempt, k + 1)
  {
    var cs' := [c] + cs;
    forall j | 0 <= j < k + 1 ensures cs'[j] in store {
      if j > 0 {
        assert cs'[j] == cs[j - 1];
      }
    }
  }

  /** A collision without error on lookup `attempt`, followed by a traced
      search from the next lookup on, is a traced search from `attempt`. */
  lemma TracedCons(store: Store, c: string, cs: seq<string>, failing: set<nat>, attempt: nat, r: Search)
    requires c in store && attempt !in failing
    requires Traced(store, cs, failing, attempt + 1, r)
    ensures Traced(store, [c] + cs, failing, attempt, r)
  {
    match r
    case Free(id, at) =>
      CollidedCons(store, c, cs, failing, attempt, at - (attempt + 1));
      assert ([c] + cs)[at - attempt] == cs[at - (attempt + 1)];
    case LookupError(at) =>
      CollidedCons(store, c, cs, failing, attempt, at - (attempt + 1));
    case OutOfDraws(n) =>
      CollidedCons(store, c, cs, failing, attempt, |cs|);
  }

  /** A search decided by its first lookup is traced. */
  lemma TracedFirst(store: Store, c: string, cs: seq<string>, failing: set<nat>, attempt: nat)
    ensures attempt in failing ==> Traced(store, [c] + cs, failing, attempt, LookupError(attempt))
    ensures attempt !in failing && c !in store ==> Traced(store, [c] + cs, failing, attempt, Free(c, attempt))
  {
    assert CollidedWithoutError(store, [c] + cs, failing, attempt, 0);
  }

  /** A search traced from lookup 0 is decided by the first lookup that is
      not a collision without error: it aborts there if that lookup failed,
      and ends on that candidate if it found no row. */
  lemma TracedDecides(store: Store, cs: seq<string>, failing: set<nat>, r: Search, j: nat)
    requires Traced(store, cs, failing, 0, r)
    requires j < |cs| && CollidedWithoutError(store, cs, failing, 0, j)
    ensures j in failing ==> r == LookupError(j)
    ensures j !in failing && cs[j] !in store ==> r == Free(cs[j], j)
  {
  }

  /** `FindFreeId` retries exactly on collisions: every lookup before the
      one that ends the loop found a row without failing. */
  lemma {:induction false} FindFreeIdTrace(store: Store, draws: seq<int>, failing: set<nat>, attempt: nat)
    requires ValidDraws(draws)
    ensures Traced(store, Candidates(draws), failing, attempt, FindFreeId(store, draws, failing, attempt))
    decreases |draws|
  {
    var cs := Candidates(draws);
    if |draws| >= IdLength {
      var c := Candidate(draws);
      RemainingDrawsValid(draws, IdLength);
      var rest := draws[IdLength..];
      var cs' := Candidates(rest);
      assert cs == [c] + cs';
      if attempt in failing {
        assert FindFreeId(store, draws, failing, attempt) == LookupError(attempt);
        TracedFirst(store, c, cs', failing, attempt);
      } else if c !in store {
        assert FindFreeId(store, draws, failing, attempt) == Free(c, attempt);
        TracedFirst(store, c, cs', failing, attempt);
      } else {
        FindFreeIdTrace(store, rest, failing, attempt + 1);
        var r := FindFreeId(store, rest, failing, attempt + 1);
        assert FindFreeId(store, draws, failing, attempt) == r;
        TracedCons(store, c, cs', failing, attempt, r);
      }
    } else {
      assert cs == [] && FindFreeId(store, draws, failing, attempt) == OutOfDraws(attempt);
    }
  }

  /** A search traced from lookup 0, in terms of the number of lookups it
      issued. */
  lemma TracedLookups(store: Store, cs: seq<string>, failing: set<nat>, r: Search)
    requires Traced(store, cs, failing, 0, r)
    ensures r.LookupError? ==>
              && 0 < r.Lookups() <= |cs| && r.Lookups() - 1 in failing
              && CollidedWithoutError(store, cs, failing, 0, r.Lookups() - 1)
    ensures r.Free? ==>
              && 0 < r.Lookups() <= |cs| && r.Lookups() - 1 !in failing
              && cs[r.Lookups() - 1] == r.id && r.id !in store
              && CollidedWithoutError(store, cs, failing, 0, r.Lookups() - 1)
    ensures r.OutOfDraws? ==>
              r.Lookups() == |cs| && CollidedWithoutError(store, cs, failing, 0, |cs|)
  {
  }

  /** The outcome of a create request, the table afterwards, and the number
      of lookups issued. */
  datatype ShortenResult = ShortenResult(outcome: ShortenOutcome, store: Store, lookups: nat)

  /** The create flow up to the insert, as a function of the table before it. */
  function ShortenSpec(store: Store, url: string, env: Env): (r: ShortenResult)
    requires ValidDraws(env.draws)
    // a URL without an http(s) scheme is rejected, and only such a URL
    ensures r.outcome.InvalidUrl? <==> !ValidScheme(url)
    // no failure writes anything
    ensures !r.outcome.Shortened? ==> r.store == store
    // success: a fresh well-formed ID, one record inserted under it,
    // every other record unchanged
    ensures r.outcome.Shortened? ==>
              var id := r.outcome.id;
              && IsShortId(id)
              && id !in store
              && r.store == store[id := ShortURL(id, url, env.now)]
  {
    if !ValidScheme(url) then ShortenResult(InvalidUrl, store, 0)
    else
      match FindFreeId(store, env.draws, env.failingLookups, 0)
      case OutOfDraws(n) => ShortenResult(CandidatesExhausted, store, n)
      case LookupError(at) => ShortenResult(LookupFailed, store, at + 1)
      case Free(id, at) =>
        if env.insertFails then ShortenResult(SaveFailed, store, at + 1)
        else ShortenResult(Shortened(id), store[id := ShortURL(id, url, env.now)], at + 1)
  }

  /** The reads behind each outcome of a create request: a rejected URL
      reads nothing; otherwise every lookup before the last one was a
      collision without error, "Database error" comes from a failed last
      lookup, a record is inserted (or its insert fails) only for the
      candidate whose lookup reported "no rows", and the draws run out only
      after every candidate collided. */
  lemma ShortenLookups(store: Store, url: string, env: Env)
    requires ValidDraws(env.draws)
    ensures var r := ShortenSpec(store, url, env);
            var cs := Candidates(env.draws);
            var F := env.failingLookups;
            && (r.outcome.InvalidUrl? ==> r.lookups == 0)
            && (r.outcome.LookupFailed? ==>
                  && 0 < r.lookups <= |cs| && r.lookups - 1 in F
                  && CollidedWithoutError(store, cs, F, 0, r.lookups - 1))
            && (r.outcome.Shortened? || r.outcome.SaveFailed? ==>
                  && 0 < r.lookups <= |cs| && r.lookups - 1 !in F && cs[r.lookups - 1] !in store
                  && CollidedWithoutError(store, cs, F, 0, r.lookups - 1))
            && (r.outcome.Shortened? ==> r.outcome.id == cs[r.lookups - 1])
            && (r.outcome.CandidatesExhausted? ==>
                  r.lookups == |cs| && CollidedWithoutError(store, cs, F, 0, |cs|))
  {
    if ValidScheme(url) {
      var F := env.failingLookups;
      FindFreeIdTrace(store, env.draws, F, 0);
      TracedLookups(store, Candidates(env.draws), F, FindFreeId(store, env.draws, F, 0));
      ShortenFollowsSearch(store, url, env);
    }
  }

  /** A create request with a valid URL ends as its search does, after the
      lookups the search issued. */
  lemma ShortenFollowsSearch(store: Store, url: string, env: Env)
    requires ValidDraws(env.draws) && ValidScheme(url)
    ensures var r := ShortenSpec(store, url, env);
            var s := FindFreeId(store, env.draws, env.failingLookups, 0);
            && r.lookups == s.Lookups()
            && (r.outcome.LookupFailed? <==> s.LookupError?)
            && (r.outcome.CandidatesExhausted? <==> s.OutOfDraws?)
            && (r.outcome.Shortened? || r.outcome.SaveFailed? <==> s.Free?)
            && (r.outcome.Shortened? ==> r.outcome.id == s.id)
  {
  }

  /** A lookup error aborts the create: if lookup `j` fails and every
      earlier lookup was a collision without error, the request answers
      "Database error" after `j + 1` lookups and writes nothing. */
  lemma ShortenAbortsOnLookupError(store: Store, url: string, env: Env, j: nat)
    requires ValidDraws(env.draws)
    ensures var r := ShortenSpec(store, url, env);
            var cs := Candidates(env.draws);
            ValidScheme(url) && j < |cs| && j in env.failingLookups
            && CollidedWithoutError(store, cs, env.failingLookups, 0, j)
            ==> r.outcome == LookupFailed && r.lookups == j + 1 && r.store == store
  {
    var cs := Candidates(env.draws);
    var F := env.failingLookups;
    if ValidScheme(url) && j < |cs| && CollidedWithoutError(store, cs, F, 0, j) {
      FindFreeIdTrace(store, env.draws, F, 0);
      TracedDecides(store, cs, F, FindFreeId(store, env.draws, F, 0), j);
    }
  }

  /** The first candidate whose lookup reports "no rows" is the one used:
      if every earlier lookup was a collision without error and lookup `j`
      succeeds on an absent candidate, the request inserts that candidate
      (or fails to save it) after `j + 1` lookups. */
  lemma ShortenTakesFirstFreeCandidate(store: Store, url: string, env: Env, j: nat)
    requires ValidDraws(env.draws)
    ensures var r := ShortenSpec(store, url, env);
            var cs := Candidates(env.draws);
            ValidScheme(url) && j < |cs| && j !in env.failingLookups && cs[j] !in store
            && CollidedWithoutError(store, cs, env.failingLookups, 0, j)
            ==> r.lookups == j + 1
                && r.outcome == (if env.insertFails then SaveFailed else Shortened(cs[j]))
  {
    var cs := Candidates(env.draws);
    var F := env.failingLookups;
    if ValidScheme(url) && j < |cs| && CollidedWithoutError(store, cs, F, 0, j) {
      FindFreeIdTrace(store, env.draws, F, 0);
      TracedDecides(store, cs, F, FindFreeId(store, env.draws, F, 0), j);
    }
  }

  /** The resolve flow: look the ID up and branch on the result. */
  function Resolve(store: Store, id: string, readFails: bool): (r: RedirectOutcome)
    ensures r.Redirect? <==> !readFails && id in store
    ensures r.Redirect? ==> r.target == store[id].original
    ensures r.NotFound? <==> !readFails && id !in store
    ensures r.ReadFailed? <==> readFails
  {
    match Select(store, id, readFails)
    case NoRows => NotFound
    case ReadError => ReadFailed
    case Found(record) => Redirect(record.original)
  }

  /** What every record the service writes satisfies: it is stored under its
      own ID, the ID is well formed, and the URL passed the scheme check. */
  ghost predicate StoreInvariant(store: Store) {
    forall k :: k in store ==> store[k].id == k && IsShortId(k) && ValidScheme(store[k].original)
  }

  /** A create request keeps the invariant of the table. */
  lemma ShortenPreservesInvariant(store: Store, url: string, env: Env)
    requires ValidDraws(env.draws) && StoreInvariant(store)
    ensures StoreInvariant(ShortenSpec(store, url, env).store)
  {
  }

  /** A successful create adds exactly one record and keeps every other. */
  lemma ShortenAddsOneRecord(store: Store, url: string, env: Env)
    requires ValidDraws(env.draws)
    ensures var r := ShortenSpec(store, url, env);
            r.outcome.Shortened? ==>
              && r.store.Keys == store.Keys + {r.outcome.id}
              && |r.store| == |store| + 1
              && forall k :: k in store ==> r.store[k] == store[k]
  {
    var r := ShortenSpec(store, url, env);
    if r.outcome.Shortened? {
      InsertFresh(store, r.outcome.id, ShortURL(r.outcome.id, url, env.now));
    }
  }

  lemma InsertFresh(store: Store, id: string, record: ShortURL)
    requires id !in store
    ensures store[id := record].Keys == store.Keys + {id}
    ensures |store[id := record]| == |store| + 1
  {
    assert store[id := record].Keys == store.Keys + {id};
  }

  /** Right after a successful create, the new ID resolves to the URL (it
      resolved to not-found before), and every other ID resolves as it did
      before. */
  lemma ResolveAfterShorten(store: Store, url: string, env: Env, other: string, readFails: bool)
    requires ValidDraws(env.draws)
    ensures var r := ShortenSpec(store, url, env);
            r.outcome.Shortened? ==>
              && Resolve(store, r.outcome.id, false) == NotFound
              && Resolve(r.store, r.outcome.id, false) == Redirect(url)
              && (other != r.outcome.id ==> Resolve(r.store, other, readFails) == Resolve(store, other, readFails))
  {
  }

  /** One create request of a sequence. */
  datatype Request = Request(url: string, env: Env)

  predicate ValidRequests(requests: seq<Request>) {
    forall i :: 0 <= i < |requests| ==> ValidDraws(requests[i].env.draws)
  }

  datatype Run = Run(outcomes: seq<ShortenOutcome>, store: Store)

  /** How many outcomes of a run issued a short ID. */
  function IssuedCount(outcomes: seq<ShortenOutcome>): (n: nat)
    ensures n <= |outcomes|
  {
    if outcomes == [] then 0
    else (if outcomes[0].Shortened? then 1 else 0) + IssuedCount(outcomes[1..])
  }

  /** Create requests handled one after another on the same table: one
      outcome per request, and the table grows by exactly one record per
      issued ID, never losing a key. */
  function RunShortens(store: Store, requests: seq<Request>): (r: Run)
    requires ValidRequests(requests)
    ensures |r.outcomes| == |requests|
    ensures store.Keys <= r.store.Keys
    ensures |r.store| == |store| + IssuedCount(r.outcomes)
    decreases |requests|
  {
    if requests == [] then Run([], store)
    else
      var first := ShortenSpec(store, requests[0].url, requests[0].env);
      ShortenAddsOneRecord(store, requests[0].url, requests[0].env);
      var rest := RunShortens(first.store, requests[1..]);
      var outcomes := [first.outcome] + rest.outcomes;
      assert outcomes[1..] == rest.outcomes;
      Run(outcomes, rest.store)
  }

  /** Over sequential create requests, every record already in the table
      stays as it was. */
  lemma {:induction false} RunKeepsRecords(store: Store, requests: seq<Request>)
    requires ValidRequests(requests)
    ensures var r := RunShortens(store, requests);
            forall k :: k in store ==> k in r.store && r.store[k] == store[k]
    decreases |requests|
  {
    if requests != [] {
      var first := ShortenSpec(store, requests[0].url, requests[0].env);
      assert ValidRequests(requests[1..]);
      RunKeepsRecords(first.store, requests[1..]);
    }
  }

  /** Over sequential create requests, every issued ID was absent from the
      initial table and, at the end, resolves to the URL it was issued for. */
  lemma {:induction false} RunIssuesFreshLastingIds(store: Store, requests: seq<Request>)
    requires ValidRequests(requests)
    ensures var r := RunShortens(store, requests);
            forall i :: 0 <= i < |r.outcomes| && r.outcomes[i].Shortened? ==>
              && r.outcomes[i].id !in store
              && Resolve(r.store, r.outcomes[i].id, false) == Redirect(requests[i].url)
    decreases |requests|
  {
    if requests != [] {
      var first := ShortenSpec(store, requests[0].url, requests[0].env);
      assert ValidRequests(requests[1..]);
      RunIssuesFreshLastingIds(first.store, requests[1..]);
      RunKeepsRecords(first.store, requests[1..]);
      var rest := RunShortens(first.store, requests[1..]);
      var r := RunShortens(store, requests);
      forall i | 0 <= i < |r.outcomes| && r.outcomes[i].Shortened?
        ensures r.outcomes[i].id !in store
        ensures Resolve(r.store, r.outcomes[i].id, false) == Redirect(requests[i].url)
      {
        if i > 0 {
          assert r.outcomes[i] == rest.outcomes[i - 1];
          assert requests[i] == requests[1..][i - 1];
        }
      }
    }
  }

  /** Sequential create requests never issue the same ID twice. */
  lemma {:induction false} RunIssuesDistinctIds(store: Store, requests: seq<Request>)
    requires ValidRequests(requests)
    ensures var r := RunShortens(store, requests);
            forall i, j :: 0 <= i < j < |r.outcomes| && r.outcomes[i].Shortened? && r.outcomes[j].Shortened? ==>
              r.outcomes[i].id != r.outcomes[j].id
    decreases |requests|
  {
    if requests != [] {
      var first := ShortenSpec(store, requests[0].url, requests[0].env);
      assert ValidRequests(requests[1..]);
      RunIssuesDistinctIds(first.store, requests[1..]);
      RunIssuesFreshLastingIds(first.store, requests[1..]);
      var rest := RunShortens(first.store, requests[1..]);
      var r := RunShortens(store, requests);
      forall i, j | 0 <= i < j < |r.outcomes| && r.outcomes[i].Shortened? && r.outcomes[j].Shortened?
        ensures r.outcomes[i].id != r.outcomes[j].id
      {
        assert r.outcomes[j] == rest.outcomes[j - 1];
        if i > 0 {
          assert r.outcomes[i] == rest.outcomes[i - 1];
        } else {
          assert r.outcomes[i].id in first.store;
        }
      }
    }
  }

  /** The service object: it owns the `urls` table. */
  class App {
    var urls: Store

    ghost predicate Valid()
      reads this
    {
      StoreInvariant(urls)
    }

    /** A service over whatever `urls` table already exists; it satisfies
        the table invariant exactly when the records do. */
    constructor(records: Store)
      ensures urls == records
      ensures Valid() <==> StoreInvariant(records)
    {
      urls := records;
    }

    /** `shortenURLHandler` up to the insert: reject a URL without an http(s)
        scheme; otherwise generate candidates until a lookup reports "no
        rows", aborting on any other lookup error; then insert one record. */
    method Shorten(url: string, env: Env) returns (outcome: ShortenOutcome, ghost lookups: nat)
      requires ValidDraws(env.draws)
      modifies this
      ensures old(Valid()) ==> Valid()
      ensures lookups == ShortenSpec(old(urls), url, env).lookups
      ensures outcome == ShortenSpec(old(urls), url, env).outcome
      ensures urls == ShortenSpec(old(urls), url, env).store
      ensures outcome.Shortened? ==> Resolve(urls, outcome.id, false) == Redirect(url)
    {
      if Valid() {
        ShortenPreservesInvariant(urls, url, env);
      }
      lookups := 0;
      if !ValidScheme(url) {
        return InvalidUrl, lookups;
      }
      var store := urls;
      var rest := env.draws;
      var attempt: nat := 0;
      var shortId := "";
      ghost var search := FindFreeId(store, env.draws, env.failingLookups, 0);
      while true
        invariant urls == store && ValidDraws(rest) && lookups == attempt
        invariant FindFreeId(store, rest, env.failingLookups, attempt) == search
        decreases |rest|
      {
        if |rest| < IdLength {
          assert search == OutOfDraws(attempt);
          return CandidatesExhausted, lookups;
        }
        shortId := GenerateShortId(IdLength, rest);
        assert shortId == Candidate(rest);
        var row := Select(store, shortId, attempt in env.failingLookups);
        lookups := lookups + 1;
        if row.ReadError? {
          assert search == LookupError(attempt);
          return LookupFailed, lookups;
        }
        if row.NoRows? {
          assert search == Free(shortId, attempt);
          break;
        }
        rest, attempt := rest[IdLength..], attempt + 1;
      }
      assert search.Free? && search.id == shortId;
      if env.insertFails {
        return SaveFailed, lookups;
      }
      urls := store[shortId := ShortURL(shortId, url, env.now)];
      outcome := Shortened(shortId);
    }
  }
}
