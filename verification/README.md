# URL shortener mapping store — Dafny model

This project models the core of a small URL-shortening service: the in-memory
store that maps six-character alphanumeric short codes to URL records, the
rejection-sampling generator that picks new codes, and the record type with
its click counter. It proves the store's invariants: keys are unique, each
original URL is stored under at most one code (dedup), and click counts only
ever grow, by exactly one per resolve. Every key is a six-character
alphanumeric code, so every code a shorten returns has that shape.

Modules, one per source file plus shared types:

- `Outcomes` (`outcomes.dfy`): `Option`, `Result` and the three error kinds
  `MissingUrl`, `InvalidUrl` and `NotFound`.
- `Models` (`models.dfy`, app/models.py): `URLMapping(originalUrl, createdAt, clicks)`,
  its constructor, `increment_clicks` and `to_dict`. `FromDict` is a reader
  used only to state that `to_dict` loses nothing.
- `Utils` (`utils.dfy`, app/utils.py): the 62-symbol alphabet
  `ascii_letters + digits`, spelled as in Python, and `generate_short_code`.
  It is written both as a recursive function (`GenerateShortCode`) and as the
  source's `while True` loop (`DrawUntilFresh`), and the two are proved equal.
  The module also proves that the keyspace has exactly 62^length codes, so a
  fresh code exists while fewer codes are in use.
- `Store` (`store.dfy`, app/main.py): the body of each `with db_lock:` block
  as a pure transition on an immutable `UrlStore`. The validation in front of
  shorten is modelled too.
- `Traces` (`traces.dfy`): handler calls as atomic steps, and properties of
  any sequence of them.

Environment inputs become parameters:
- `is_valid_url` is the function parameter `isValid`. It wraps the foreign
  `validators` library, so the model makes no assumption about it.
- Each `random.choices(alphabet, k=length)` call is a supplied `Draw`, the
  list of alphabet positions it picked. One generator call gets a sequence
  of such draws.
- `datetime.utcnow().isoformat()` is a supplied string `now`.

The `UrlStore` keeps its codes in insertion order (`order`) next to the
code-to-record map. Python dictionaries iterate in insertion order, and the
dedup scan returns the first match in that order. Under the dedup invariant
that first match is the only match (`Store.ScanFindsTheOnlyMatch`).

The empty-URL case follows the code. `if not long_url` treats an empty string
like a missing key, so both give `MissingUrl` ("Missing 'url' in request body")
before the validator is consulted.

`generate_short_code` gets `set(url_store.keys())`, a copy, and Dafny sets are
values, so the generator cannot modify the caller's set.

## Model

| member | source | states |
|---|---|---|
| `Models.NewMapping` | app/models.py:13-16 | a new mapping holds the given URL and creation time and has zero clicks |
| `Models.IncrementClicks` | app/models.py:18-20 | clicks rise by exactly one; URL and creation time are unchanged |
| `Models.ClickedCounts` | app/models.py:18-20 | n increments raise clicks by exactly n and change neither URL nor creation time |
| `Models.ClicksSinceCreation` | app/models.py:13-20 | a new mapping clicked n times reports n clicks and still has its URL |
| `Models.ToDict` | app/models.py:22-30 | the dict has exactly the keys url, created_at and clicks, holding the URL, the creation time and the click count |
| `Models.DictRoundTrip` | app/models.py:22-30 | the mapping can be read back from its dict, so to_dict loses no field |
| `Models.DictOnlyFromMapping` | app/models.py:22-30 | to_dict is a left inverse of the reader: any dict that reads back as a mapping is that mapping's to_dict; with DictRoundTrip the two are inverse bijections |
| `Utils.AlphabetSpelled` | app/utils.py:16 | the alphabet has 62 symbols: a-z, then A-Z, then 0-9, in that order |
| `Utils.AlphabetMembers` | app/utils.py:16 | a character is in the alphabet exactly when it is an ASCII letter or digit |
| `Utils.Candidate` | app/utils.py:18 | a draw of k positions spells a k-character alphanumeric string, one alphabet symbol per position |
| `Utils.GenerateShortCode` | app/utils.py:5-20 | the code has exactly `length` alphanumeric characters, is not in existing_codes, and is the candidate of the first draw not in existing_codes (earlier colliding draws are skipped) |
| `Utils.GenerateIsFirstFresh` | app/utils.py:17-20 | if draw i is the first fresh one, the generator returns exactly its candidate |
| `Utils.DrawUntilFresh` | app/utils.py:17-20 | the while-True loop stops at the first draw whose candidate is unused, and its result is the generator's |
| `Utils.AllCodesSize` | app/utils.py:16-18 | the keyspace of codes of a given length has 62^length members |
| `Utils.AllCodesMembers` | app/utils.py:16-18 | the keyspace is exactly the alphanumeric strings of that length |
| `Utils.FreshCodeExists` | app/utils.py:13-14 | with fewer than 62^length codes in use, an unused alphanumeric code of that length exists |
| `Utils.CodeIsDrawable` | app/utils.py:18 | every alphanumeric code of the requested length is the result of some draw |
| `Utils.FreshDrawExists` | app/utils.py:13-20 | with fewer than 62^length codes in use, some single draw yields an unused code, so the loop can succeed |
| `Store.FindByUrl` | app/main.py:49-52 | the scan misses exactly when no scanned code maps to the URL; a hit maps to the URL, and no earlier code in insertion order does |
| `Store.ExistingCode` | app/main.py:47-53 | the dedup lookup returns a code stored under the URL, and misses exactly when no code is |
| `Store.ScanFindsTheOnlyMatch` | app/main.py:49-52 | under the dedup invariant, any code stored under the URL is the one the scan returns |
| `Store.ShortenLocked` | app/main.py:47-55 | a stored URL returns a code holding it and the store is unchanged; a new URL gets a 6-character alphanumeric code not previously in use, and exactly one new entry is added while every old entry is kept |
| `Store.ValidateUrl` | app/main.py:41-45 | a missing or empty URL gives MissingUrl, a URL the validator rejects gives InvalidUrl, anything else passes unchanged |
| `Store.Shorten` | app/main.py:41-55 | shorten fails exactly when validation fails, and then the store is unchanged; on success the returned code maps to the given URL; every existing entry is kept unchanged in both cases |
| `Store.EmptyInvariant` | app/main.py:9 | the empty start store satisfies the invariant (unique keys, distinct URLs, well-shaped codes) |
| `Store.ShortenLockedPreservesInvariant` | app/main.py:47-55 | the locked shorten keeps keys unique, keeps each URL under at most one code, and keeps every key a 6-character alphanumeric code |
| `Store.ShortenReturnsCode` | app/main.py:47-58 | on a store keeping the invariant, every successful shorten returns a 6-character alphanumeric code, on the reuse branch as well as the fresh one |
| `Store.ShortenPreservesInvariant` | app/main.py:41-55 | the whole shorten request keeps the invariant |
| `Store.ShortenReusesCode` | app/main.py:47-52 | shortening a URL already stored under code c returns c and leaves the store unchanged |
| `Store.RejectedUrlLeavesStore` | app/main.py:41-45 | a missing, empty or invalid URL yields its error and leaves the store untouched |
| `Store.ShortenIdempotent` | app/main.py:47-55 | calling shorten twice with the same input gives the same result both times; the second call changes nothing, whatever clock value and draws it gets |
| `Store.ResolveAndCount` | app/main.py:65-71 | an unknown code gives NotFound and the same store; a known code gives its URL and one more click, and every other entry and field is unchanged |
| `Store.ResolvePreservesInvariant` | app/main.py:65-71 | resolving keeps the invariant |
| `Store.GetStats` | app/main.py:78-83 | an unknown code gives NotFound; a known code gives its URL, creation time and click count under the three to_dict keys; no store is returned, so nothing changes |
| `Store.StatsSeeResolve` | app/main.py:65-83 | stats taken after a resolve show one more click, with the same URL and creation time |
| `Store.ShortenResolveStats` | tests/test_basic.py:51-64 | shortening a new URL, resolving the code once and reading stats returns a 6-character code, a redirect to the URL, and stats with that URL and one click |
| `Traces.Step` | app/main.py:30-83 | a handler step loses no mapping, changes no URL or creation time and never lowers a click count; stats change nothing; resolve adds no key |
| `Traces.Run` | app/main.py:30-83 | across any sequence of requests no mapping is lost, URLs and creation times stay fixed and clicks never decrease |
| `Traces.StepPreservesInvariant` | app/main.py:47-83 | every handler step keeps the store invariant |
| `Traces.RunPreservesInvariant` | app/main.py:47-83 | any sequence of requests keeps keys unique, each URL under at most one code, and every key a 6-character alphanumeric code |
| `Traces.ReachableUrlsDistinct` | app/main.py:9-83 | every store reachable from the empty start holds each original URL under at most one code |
| `Traces.ReachableCodesWellShaped` | app/main.py:9-83 | every key of a store reachable from the empty start is a 6-character alphanumeric code |
| `Traces.StepCountsClicks` | app/main.py:65-71 | one request adds a click to a stored code exactly when it resolves that code, and never removes the code |
| `Traces.RunCountsClicks` | app/main.py:65-71 | a stored code's clicks grow by exactly the number of requests that resolve it |
| `Traces.ClicksSinceShortened` | app/main.py:53-71 | after a URL is first shortened, its code's click count equals the number of later resolves of that code |
| `Traces.CodeIsStable` | app/main.py:47-52 | once a URL has code c, a shorten of it after any sequence of requests returns c and changes nothing |

## Left out

- The JSON content check (app/main.py:35-36, status 415) and `request.get_json()` are HTTP parsing. The body's `url` is modelled as `Option<string>`. A JSON `url` that is not a string, and a body that is JSON but not an object, are not modelled.
- HTTP status codes, response messages, `jsonify`, `redirect` and the `request.host_url + short_code` concatenation (app/main.py:57-58) are HTTP glue. Results are `Result` values carrying an error kind.
- The health-check endpoints (app/main.py:14-28) return constant responses and contain no logic.
- `threading.Lock` (app/main.py:12) is not modelled. Each `with db_lock:` block is one atomic step, and the trace lemmas cover every order of steps.
- `is_valid_url` (app/utils.py:23-36) calls the `validators` library, which is not part of this model. It is the function parameter `isValid`.
- `random.choices` (app/utils.py:18) is not modelled as randomness. It is a supplied sequence of draws, and the uniform distribution is not modelled.
- Utils.GenerateShortCode: the source loops until a fresh candidate appears. That ends with probability 1 only while fewer than 62^length codes are in use (`Utils.FreshDrawExists`). Once every code of the length is taken, for example length 0 with `""` in use, the loop never ends, and because it runs inside `with db_lock` (app/main.py:47-54) every other request then blocks forever. The model requires the supplied draws to contain a fresh candidate (`HasFresh`), which rules that case out. `Store.ShortenLocked` asks for this only when a new code is needed.
- `datetime.datetime.utcnow().isoformat()` (app/models.py:15) is the supplied string `now`.
- Clearing the store between tests (tests/test_basic.py:12-16) is not a service operation. The service never deletes entries.
- The `__main__` server bootstrap (app/main.py:85-86) starts the process and contains no store logic.
