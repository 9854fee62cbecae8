/** The in-memory mapping store of app/main.py: the body of each
    `with db_lock:` block is one atomic transition on an immutable store.

    Python dictionaries remember insertion order and the dedup scan walks
    `url_store.items()` in that order, so the store keeps its codes in
    insertion order next to the code-to-record map. */
module Store {
  import opened Outcomes
  import opened Models
  import opened Utils

  /** `generate_short_code`'s default length, which `shorten_url` uses. */
  const ShortCodeLength: nat := 6

  datatype UrlStore = UrlStore(order: seq<string>, entries: map<string, URLMapping>)

  /** `url_store = {}` at process start. */
  const Empty: UrlStore := UrlStore([], map[])

  /** Representation invariant: `order` lists every key once, and only keys. */
  predicate WellFormed(s: UrlStore)
  {
    && (forall i, j :: 0 <= i < j < |s.order| ==> s.order[i] != s.order[j])
    && (forall c :: c in s.entries ==> c in s.order)
    && (forall i :: 0 <= i < |s.order| ==> s.order[i] in s.entries)
  }

  /** Some code is already mapped to `url`. */
  predicate Stores(s: UrlStore, url: string)
  {
    exists c :: c in s.entries && s.entries[c].originalUrl == url
  }

  /** No two codes share an original URL (the dedup invariant). */
  predicate UrlsDistinct(s: UrlStore)
  {
    forall c, d :: c in s.entries && d in s.entries && c != d ==>
      s.entries[c].originalUrl != s.entries[d].originalUrl
  }

  /** Every key is a code the generator can produce: six ASCII letters or digits. */
  predicate CodesWellShaped(s: UrlStore)
  {
    forall c :: c in s.entries ==> IsCode(c, ShortCodeLength)
  }

  predicate Invariant(s: UrlStore)
  {
    WellFormed(s) && UrlsDistinct(s) && CodesWellShaped(s)
  }

  /** The `for code, mapping in url_store.items()` scan: the first code, in
      insertion order, whose mapping has `url` as its original URL. */
  function FindByUrl(order: seq<string>, entries: map<string, URLMapping>, url: string): (r: Option<string>)
    requires forall i :: 0 <= i < |order| ==> order[i] in entries
    ensures r.None? <==> forall i :: 0 <= i < |order| ==> entries[order[i]].originalUrl != url
    ensures r.Some? ==> exists i :: 0 <= i < |order| && order[i] == r.value
                          && entries[order[i]].originalUrl == url
                          && forall j :: 0 <= j < i ==> entries[order[j]].originalUrl != url
    decreases |order|
  {
    if |order| == 0 then None
    else if entries[order[0]].originalUrl == url then Some(order[0])
    else
      var r := FindByUrl(order[1..], entries, url);
      assert forall i :: 1 <= i < |order| ==> order[i] == order[1..][i - 1];
      r
  }

  /** The dedup lookup on a whole store: a hit is a code stored under `url`,
      and a miss means no code is. */
  function ExistingCode(s: UrlStore, url: string): (r: Option<string>)
    requires WellFormed(s)
    ensures r.Some? ==> r.value in s.entries && s.entries[r.value].originalUrl == url
    ensures r.None? <==> !Stores(s, url)
  {
    var r := FindByUrl(s.order, s.entries, url);
    if r.None? then
      assert forall c :: c in s.entries ==> s.entries[c].originalUrl != url by {
        forall c | c in s.entries ensures s.entries[c].originalUrl != url {
          var i :| 0 <= i < |s.order| && s.order[i] == c;
        }
      }
      r
    else r
  }

  /** Under the dedup invariant the scan cannot pick between matches: any
      code stored under `url` is the one it finds. */
  lemma ScanFindsTheOnlyMatch(s: UrlStore, url: string, c: string)
    requires Invariant(s)
    requires c in s.entries && s.entries[c].originalUrl == url
    ensures ExistingCode(s, url) == Some(c)
  {
  }

  /** What the locked block of `shorten_url` needs of the random source:
      draws of the default length, and a fresh one when a code is generated. */
  predicate ShortenLockedReady(s: UrlStore, url: string, draws: seq<Draw>)
  {
    && WellFormed(s)
    && DrawsOfLength(draws, ShortCodeLength)
    && (!Stores(s, url) ==> HasFresh(s.entries.Keys, draws))
  }

  /** The locked block of `shorten_url`: reuse the code already stored for
      `url`, or generate a code unused so far and insert a new mapping. */
  function ShortenLocked(s: UrlStore, url: string, now: string, draws: seq<Draw>): (out: (string, UrlStore))
    requires ShortenLockedReady(s, url, draws)
    ensures WellFormed(out.1)
    ensures out.0 in out.1.entries && out.1.entries[out.0].originalUrl == url
    ensures forall c :: c in s.entries ==> c in out.1.entries && out.1.entries[c] == s.entries[c]
    ensures Stores(s, url) ==> out.1 == s
    ensures !Stores(s, url) ==>
      && out.0 !in s.entries
      && IsCode(out.0, ShortCodeLength)
      && out.1.entries == s.entries[out.0 := NewMapping(url, now)]
      && out.1.order == s.order + [out.0]
      && |out.1.entries| == |s.entries| + 1
  {
    match ExistingCode(s, url)
    case Some(code) => (code, s)
    case None =>
      var code := GenerateShortCode(s.entries.Keys, ShortCodeLength, draws);
      (code, UrlStore(s.order + [code], s.entries[code := NewMapping(url, now)]))
  }

  /** The checks of `shorten_url` before the lock: `not long_url` rejects a
      missing or empty URL, then `is_valid_url` must accept it. */
  function ValidateUrl(url: Option<string>, isValid: string -> bool): (r: Result<string>)
    ensures r.Ok? <==> url.Some? && url.value != [] && isValid(url.value)
    ensures r.Ok? ==> r.value == url.value
    ensures r == Err(MissingUrl) <==> url.None? || url.value == []
    ensures r.Err? ==> r.error != NotFound
  {
    match url
    case None => Err(MissingUrl)
    case Some(u) =>
      if u == [] then Err(MissingUrl)
      else if !isValid(u) then Err(InvalidUrl)
      else Ok(u)
  }

  /** What a whole `shorten_url` call needs of the random source. */
  predicate ShortenReady(s: UrlStore, url: Option<string>, isValid: string -> bool, draws: seq<Draw>)
  {
    && WellFormed(s)
    && DrawsOfLength(draws, ShortCodeLength)
    && (ValidateUrl(url, isValid).Ok? ==> ShortenLockedReady(s, url.value, draws))
  }

  /** `shorten_url`: validation, then the locked dedup-or-insert. */
  function Shorten(s: UrlStore, url: Option<string>, isValid: string -> bool, now: string, draws: seq<Draw>)
    : (out: (Result<string>, UrlStore))
    requires ShortenReady(s, url, isValid, draws)
    ensures WellFormed(out.1)
    ensures out.0.Err? <==> ValidateUrl(url, isValid).Err?
    ensures out.0.Err? ==> out.0 == ValidateUrl(url, isValid) && out.1 == s
    ensures forall c :: c in s.entries ==> c in out.1.entries && out.1.entries[c] == s.entries[c]
    ensures out.0.Ok? ==> out.0.value in out.1.entries
                          && out.1.entries[out.0.value].originalUrl == url.value
  {
    match ValidateUrl(url, isValid)
    case Err(e) => (Err(e), s)
    case Ok(u) =>
      var (code, s') := ShortenLocked(s, u, now, draws);
      (Ok(code), s')
  }

  /** The locked block of `redirect_to_url`: an unknown code is NotFound and
      changes nothing; a known one yields its URL and gains one click. */
  function ResolveAndCount(s: UrlStore, code: string): (out: (Result<string>, UrlStore))
    ensures code !in s.entries ==> out == (Err(NotFound), s)
    ensures code in s.entries ==>
      && out.0 == Ok(s.entries[code].originalUrl)
      && out.1.order == s.order
      && out.1.entries.Keys == s.entries.Keys
      && out.1.entries[code].clicks == s.entries[code].clicks + 1
      && out.1.entries[code].originalUrl == s.entries[code].originalUrl
      && out.1.entries[code].createdAt == s.entries[code].createdAt
      && forall c :: c in s.entries && c != code ==> out.1.entries[c] == s.entries[c]
  {
    if code in s.entries then
      var m := s.entries[code];
      (Ok(m.originalUrl), UrlStore(s.order, s.entries[code := IncrementClicks(m)]))
    else (Err(NotFound), s)
  }

  /** The locked block of `get_stats`: a read that returns a snapshot of the
      record's fields and, returning no store, changes none. */
  function GetStats(s: UrlStore, code: string): (r: Result<map<string, JsonValue>>)
    ensures r.Err? <==> code !in s.entries
    ensures r.Err? ==> r.error == NotFound
    ensures r.Ok? ==>
      && r.value.Keys == DictKeys()
      && r.value[UrlKey] == JString(s.entries[code].originalUrl)
      && r.value[CreatedAtKey] == JString(s.entries[code].createdAt)
      && r.value[ClicksKey] == JNumber(s.entries[code].clicks)
  {
    if code in s.entries then Ok(ToDict(s.entries[code])) else Err(NotFound)
  }

  // ---------------------------------------------------------------------
  // Properties of single calls.

  lemma EmptyInvariant()
    ensures Invariant(Empty)
  {
  }

  /** Shortening keeps codes unique and, thanks to the dedup scan, keeps
      every original URL under at most one code. */
  lemma ShortenLockedPreservesInvariant(s: UrlStore, url: string, now: string, draws: seq<Draw>)
    requires Invariant(s)
    requires ShortenLockedReady(s, url, draws)
    ensures Invariant(ShortenLocked(s, url, now, draws).1)
  {
    var (code, s') := ShortenLocked(s, url, now, draws);
    if !Stores(s, url) {
      forall c, d | c in s'.entries && d in s'.entries && c != d
        ensures s'.entries[c].originalUrl != s'.entries[d].originalUrl
      {
        if c == code {
          assert d in s.entries;
        } else if d == code {
          assert c in s.entries;
        }
      }
    }
  }

  lemma ShortenPreservesInvariant(s: UrlStore, url: Option<string>, isValid: string -> bool, now: string, draws: seq<Draw>)
    requires Invariant(s)
    requires ShortenReady(s, url, isValid, draws)
    ensures Invariant(Shorten(s, url, isValid, now, draws).1)
  {
    if ValidateUrl(url, isValid).Ok? {
      ShortenLockedPreservesInvariant(s, url.value, now, draws);
    }
  }

  /** On a store that keeps the invariant, every successful shorten returns
      a six-character alphanumeric code, whether reused or freshly made. */
  lemma ShortenReturnsCode(s: UrlStore, url: Option<string>, isValid: string -> bool, now: string, draws: seq<Draw>)
    requires Invariant(s)
    requires ShortenReady(s, url, isValid, draws)
    ensures Shorten(s, url, isValid, now, draws).0.Ok? ==>
              IsCode(Shorten(s, url, isValid, now, draws).0.value, ShortCodeLength)
  {
  }

  /** Dedup: shortening a URL that is already stored returns its code and
      leaves the store as it was. */
  lemma ShortenReusesCode(s: UrlStore, url: string, isValid: string -> bool, now: string, draws: seq<Draw>, c: string)
    requires Invariant(s)
    requires ShortenReady(s, Some(url), isValid, draws)
    requires url != [] && isValid(url)
    requires c in s.entries && s.entries[c].originalUrl == url
    ensures Shorten(s, Some(url), isValid, now, draws) == (Ok(c), s)
  {
    ScanFindsTheOnlyMatch(s, url, c);
  }

  /** A missing, empty or invalid URL is rejected before the store is looked
      at: the store is returned unchanged whatever it holds. */
  lemma RejectedUrlLeavesStore(s: UrlStore, url: Option<string>, isValid: string -> bool, now: string, draws: seq<Draw>)
    requires ShortenReady(s, url, isValid, draws)
    requires url.None? || url.value == [] || !isValid(url.value)
    ensures Shorten(s, url, isValid, now, draws).1 == s
    ensures Shorten(s, url, isValid, now, draws).0 ==
              Err(if url.None? || url.value == [] then MissingUrl else InvalidUrl)
  {
  }

  /** Shortening the same URL twice gives the same answer twice, and the
      second call changes nothing, whatever clock value and draws it gets. */
  lemma ShortenIdempotent(s: UrlStore, url: Option<string>, isValid: string -> bool,
                          now: string, draws: seq<Draw>, now': string, draws': seq<Draw>)
    requires ShortenReady(s, url, isValid, draws)
    requires DrawsOfLength(draws', ShortCodeLength)
    ensures var first := Shorten(s, url, isValid, now, draws);
            && ShortenReady(first.1, url, isValid, draws')
            && Shorten(first.1, url, isValid, now', draws') == first
  {
    var first := Shorten(s, url, isValid, now, draws);
    if ValidateUrl(url, isValid).Ok? {
      var u := url.value;
      var s1 := first.1;
      var code := first.0.value;
      assert Stores(s1, u) by {
        assert code in s1.entries && s1.entries[code].originalUrl == u;
      }
    }
  }

  /** Resolving keeps the invariant: it changes no key and no URL. */
  lemma ResolvePreservesInvariant(s: UrlStore, code: string)
    requires Invariant(s)
    ensures Invariant(ResolveAndCount(s, code).1)
  {
    var s' := ResolveAndCount(s, code).1;
    if code in s.entries {
      assert forall c :: c in s'.entries ==> s'.entries[c].originalUrl == s.entries[c].originalUrl;
    }
  }

  /** A resolve is visible in the stats: one more click, same URL and
      creation time. */
  lemma StatsSeeResolve(s: UrlStore, code: string)
    requires code in s.entries
    ensures GetStats(ResolveAndCount(s, code).1, code) ==
              Ok(ToDict(s.entries[code].(clicks := s.entries[code].clicks + 1)))
  {
  }

  /** The click-tracking flow on a store that does not hold the URL yet:
      shorten, resolve once, and the stats report the URL with one click. */
  lemma ShortenResolveStats(s: UrlStore, url: string, isValid: string -> bool, now: string, draws: seq<Draw>)
    requires Invariant(s) && !Stores(s, url)
    requires url != [] && isValid(url)
    requires DrawsOfLength(draws, ShortCodeLength) && HasFresh(s.entries.Keys, draws)
    ensures var (r, s1) := Shorten(s, Some(url), isValid, now, draws);
            && r.Ok? && |r.value| == ShortCodeLength
            && ResolveAndCount(s1, r.value).0 == Ok(url)
            && GetStats(ResolveAndCount(s1, r.value).1, r.value) ==
                 Ok(map[UrlKey := JString(url), CreatedAtKey := JString(now), ClicksKey := JNumber(1)])
  {
    var (r, s1) := Shorten(s, Some(url), isValid, now, draws);
    StatsSeeResolve(s1, r.value);
  }
}
