/** One URL-shortener entry: the destination URL, its creation timestamp
    and its click counter (app/models.py). */
module Models {
  import opened Outcomes

  /** `created_at` is an ISO-formatted timestamp; the clock is not modelled,
      so it is an opaque string supplied at creation. Python integers do not
      wrap, so the click counter is an unbounded natural. */
  datatype URLMapping = URLMapping(originalUrl: string, createdAt: string, clicks: nat)

  /** The constructor: the URL as given, the supplied creation time, no clicks. */
  function NewMapping(originalUrl: string, now: string): (m: URLMapping)
    ensures m.originalUrl == originalUrl
    ensures m.createdAt == now
    ensures m.clicks == 0
  {
    URLMapping(originalUrl, now, 0)
  }

  /** The only mutator: one more click, everything else as it was. */
  function IncrementClicks(m: URLMapping): (m': URLMapping)
    ensures m'.clicks == m.clicks + 1
    ensures m'.originalUrl == m.originalUrl && m'.createdAt == m.createdAt
  {
    m.(clicks := m.clicks + 1)
  }

  /** `n` successive calls of IncrementClicks. */
  function Clicked(m: URLMapping, n: nat): URLMapping
    decreases n
  {
    if n == 0 then m else IncrementClicks(Clicked(m, n - 1))
  }

  /** After `n` clicks the counter has grown by exactly `n`, and the URL and
      creation time are those the mapping was created with. */
  lemma {:induction false} ClickedCounts(m: URLMapping, n: nat)
    ensures Clicked(m, n).clicks == m.clicks + n
    ensures Clicked(m, n).originalUrl == m.originalUrl
    ensures Clicked(m, n).createdAt == m.createdAt
    decreases n
  {
    if n > 0 {
      ClickedCounts(m, n - 1);
    }
  }

  /** A freshly created mapping clicked `n` times reports `n` clicks. */
  lemma ClicksSinceCreation(url: string, now: string, n: nat)
    ensures Clicked(NewMapping(url, now), n).clicks == n
    ensures Clicked(NewMapping(url, now), n).originalUrl == url
  {
    ClickedCounts(NewMapping(url, now), n);
  }

  /** The JSON values `to_dict` produces. */
  datatype JsonValue = JString(str: string) | JNumber(num: int)

  const UrlKey: string := "url"
  const CreatedAtKey: string := "created_at"
  const ClicksKey: string := "clicks"

  /** The three keys of a serialised mapping. */
  function DictKeys(): set<string>
  {
    {UrlKey, CreatedAtKey, ClicksKey}
  }

  /** `to_dict`: the JSON-serialisable view of a mapping. */
  function ToDict(m: URLMapping): (d: map<string, JsonValue>)
    ensures d.Keys == DictKeys()
    ensures d[UrlKey] == JString(m.originalUrl)
    ensures d[CreatedAtKey] == JString(m.createdAt)
    ensures d[ClicksKey] == JNumber(m.clicks)
  {
    map[UrlKey := JString(m.originalUrl),
        CreatedAtKey := JString(m.createdAt),
        ClicksKey := JNumber(m.clicks)]
  }

  /** Reads a serialised mapping back: exactly the three keys, two strings and
      a non-negative number. */
  function FromDict(d: map<string, JsonValue>): (r: Option<URLMapping>)
  {
    if d.Keys == DictKeys()
       && d[UrlKey].JString? && d[CreatedAtKey].JString?
       && d[ClicksKey].JNumber? && d[ClicksKey].num >= 0
    then Some(URLMapping(d[UrlKey].str, d[CreatedAtKey].str, d[ClicksKey].num))
    else None
  }

  /** `to_dict` loses nothing: the mapping can be read back from it. */
  lemma DictRoundTrip(m: URLMapping)
    ensures FromDict(ToDict(m)) == Some(m)
  {
  }

  /** `ToDict` is a left inverse of `FromDict`: every dictionary that reads
      back as a mapping is that mapping's `to_dict`. With DictRoundTrip, the
      two are inverse bijections between mappings and the dictionaries
      `FromDict` accepts. */
  lemma DictOnlyFromMapping(d: map<string, JsonValue>, m: URLMapping)
    requires FromDict(d) == Some(m)
    ensures ToDict(m) == d
  {
    assert ToDict(m).Keys == d.Keys;
  }
}
