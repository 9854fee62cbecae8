/** Sequences of requests. Every handler holds `db_lock` for its whole store
    access, so any concurrent schedule of requests behaves like some sequence
    of atomic steps; the properties below hold for every such sequence. */
module Traces {
  import opened Outcomes
  import opened Models
  import opened Utils
  import opened Store

  /** One handler call with the values the environment supplies to it: the
      request body's `url`, the clock reading and the random draws for
      `shorten_url`, the path's short code for the other two. */
  datatype Request =
    | ShortenRequest(url: Option<string>, now: string, draws: seq<Draw>)
    | RedirectRequest(code: string)
    | StatsRequest(code: string)

  datatype Response =
    | Shortened(code: Result<string>)
    | Redirected(target: Result<string>)
    | StatsReport(stats: Result<map<string, JsonValue>>)

  predicate StepReady(s: UrlStore, req: Request, isValid: string -> bool)
  {
    && WellFormed(s)
    && (req.ShortenRequest? ==> ShortenReady(s, req.url, isValid, req.draws))
  }

  /** No mapping is lost, URLs and creation times never change, and click
      counts never decrease. */
  predicate Grows(s: UrlStore, s': UrlStore)
  {
    forall c :: c in s.entries ==>
      && c in s'.entries
      && s'.entries[c].originalUrl == s.entries[c].originalUrl
      && s'.entries[c].createdAt == s.entries[c].createdAt
      && s'.entries[c].clicks >= s.entries[c].clicks
  }

  /** One atomic handler step. */
  function Step(s: UrlStore, req: Request, isValid: string -> bool): (out: (Response, UrlStore))
    requires StepReady(s, req, isValid)
    ensures WellFormed(out.1)
    ensures Grows(s, out.1)
    ensures req.StatsRequest? ==> out.1 == s
    ensures req.RedirectRequest? ==> out.1.entries.Keys == s.entries.Keys
  {
    match req
    case ShortenRequest(url, now, draws) =>
      var (r, s') := Shorten(s, url, isValid, now, draws);
      (Shortened(r), s')
    case RedirectRequest(code) =>
      var (r, s') := ResolveAndCount(s, code);
      (Redirected(r), s')
    case StatsRequest(code) =>
      (StatsReport(GetStats(s, code)), s)
  }

  /** Every step of the sequence finds what it needs in the store the
      previous steps left behind. */
  predicate Runnable(s: UrlStore, reqs: seq<Request>, isValid: string -> bool)
    decreases |reqs|
  {
    |reqs| == 0 ||
    (StepReady(s, reqs[0], isValid) && Runnable(Step(s, reqs[0], isValid).1, reqs[1..], isValid))
  }

  /** The store after serving `reqs` in order. */
  function Run(s: UrlStore, reqs: seq<Request>, isValid: string -> bool): (s': UrlStore)
    requires Runnable(s, reqs, isValid)
    ensures Grows(s, s')
    decreases |reqs|
  {
    if |reqs| == 0 then s
    else Run(Step(s, reqs[0], isValid).1, reqs[1..], isValid)
  }

  /** How many of the requests resolve `code`. */
  function Redirects(reqs: seq<Request>, code: string): nat
    decreases |reqs|
  {
    if |reqs| == 0 then 0
    else (if reqs[0] == RedirectRequest(code) then 1 else 0) + Redirects(reqs[1..], code)
  }

  lemma StepPreservesInvariant(s: UrlStore, req: Request, isValid: string -> bool)
    requires Invariant(s)
    requires StepReady(s, req, isValid)
    ensures Invariant(Step(s, req, isValid).1)
  {
    match req
    case ShortenRequest(url, now, draws) =>
      ShortenPreservesInvariant(s, url, isValid, now, draws);
    case RedirectRequest(code) =>
      ResolvePreservesInvariant(s, code);
    case StatsRequest(_) =>
  }

  /** Keys stay unique and every URL stays under at most one code, whatever
      the sequence of requests. */
  lemma {:induction false} RunPreservesInvariant(s: UrlStore, reqs: seq<Request>, isValid: string -> bool)
    requires Invariant(s)
    requires Runnable(s, reqs, isValid)
    ensures Invariant(Run(s, reqs, isValid))
    decreases |reqs|
  {
    if |reqs| > 0 {
      StepPreservesInvariant(s, reqs[0], isValid);
      RunPreservesInvariant(Step(s, reqs[0], isValid).1, reqs[1..], isValid);
    }
  }

  /** Every store the service can reach from its empty start holds each
      original URL under at most one code. */
  lemma ReachableUrlsDistinct(reqs: seq<Request>, isValid: string -> bool)
    requires Runnable(Empty, reqs, isValid)
    ensures UrlsDistinct(Run(Empty, reqs, isValid))
  {
    EmptyInvariant();
    RunPreservesInvariant(Empty, reqs, isValid);
  }

  /** Every key of a store reachable from the empty start is a six-character
      alphanumeric code, so every code a shorten returns has that shape. */
  lemma ReachableCodesWellShaped(reqs: seq<Request>, isValid: string -> bool)
    requires Runnable(Empty, reqs, isValid)
    ensures CodesWellShaped(Run(Empty, reqs, isValid))
  {
    EmptyInvariant();
    RunPreservesInvariant(Empty, reqs, isValid);
  }

  /** One step adds a click to a stored code exactly when it resolves it. */
  lemma StepCountsClicks(s: UrlStore, req: Request, isValid: string -> bool, code: string)
    requires StepReady(s, req, isValid)
    requires code in s.entries
    ensures code in Step(s, req, isValid).1.entries
    ensures Step(s, req, isValid).1.entries[code].clicks ==
              s.entries[code].clicks + (if req == RedirectRequest(code) then 1 else 0)
  {
    match req
    case ShortenRequest(url, now, draws) =>
    case RedirectRequest(c) =>
    case StatsRequest(_) =>
  }

  /** A stored code's clicks grow by exactly the number of requests that
      resolve it. */
  lemma {:induction false} RunCountsClicks(s: UrlStore, reqs: seq<Request>, isValid: string -> bool, code: string)
    requires Runnable(s, reqs, isValid)
    requires code in s.entries
    ensures code in Run(s, reqs, isValid).entries
    ensures Run(s, reqs, isValid).entries[code].clicks == s.entries[code].clicks + Redirects(reqs, code)
    decreases |reqs|
  {
    if |reqs| > 0 {
      var s1 := Step(s, reqs[0], isValid).1;
      StepCountsClicks(s, reqs[0], isValid, code);
      RunCountsClicks(s1, reqs[1..], isValid, code);
    }
  }

  /** After a URL is first shortened, its code's click count is the number of
      later requests that resolve that code. */
  lemma ClicksSinceShortened(s: UrlStore, url: string, isValid: string -> bool, now: string,
                             draws: seq<Draw>, reqs: seq<Request>)
    requires ShortenReady(s, Some(url), isValid, draws)
    requires url != [] && isValid(url) && !Stores(s, url)
    requires Runnable(Shorten(s, Some(url), isValid, now, draws).1, reqs, isValid)
    ensures var (r, s1) := Shorten(s, Some(url), isValid, now, draws);
            && r.Ok? && r.value in Run(s1, reqs, isValid).entries
            && Run(s1, reqs, isValid).entries[r.value].clicks == Redirects(reqs, r.value)
  {
    var (r, s1) := Shorten(s, Some(url), isValid, now, draws);
    RunCountsClicks(s1, reqs, isValid, r.value);
  }

  /** Once a URL has a code, every later shorten of it, after any requests
      at all, returns that same code and adds nothing. */
  lemma CodeIsStable(s: UrlStore, reqs: seq<Request>, isValid: string -> bool,
                     url: string, now: string, draws: seq<Draw>, code: string)
    requires Invariant(s)
    requires Runnable(s, reqs, isValid)
    requires code in s.entries && s.entries[code].originalUrl == url
    requires url != [] && isValid(url)
    requires DrawsOfLength(draws, ShortCodeLength)
    ensures var s' := Run(s, reqs, isValid);
            && ShortenReady(s', Some(url), isValid, draws)
            && Shorten(s', Some(url), isValid, now, draws) == (Ok(code), s')
  {
    var s' := Run(s, reqs, isValid);
    RunPreservesInvariant(s, reqs, isValid);
    assert code in s'.entries && s'.entries[code].originalUrl == url;
    ShortenReusesCode(s', url, isValid, now, draws, code);
  }
}
