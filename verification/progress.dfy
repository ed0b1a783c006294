/**
 * The reading progress kept in the `progress.json` store: one JSON value
 * per book, keyed by the book's hash. The value is `[url]` or
 * `[url, percentage]`, or `null` when no page is current.
 */
module Progress {
  import opened Wrappers
  import opened Opf

  /** The JSON values the store can hold; booleans and objects are `JOther`. */
  datatype Json = JNull | JString(s: string) | JNumber(n: real) | JArray(elems: seq<Json>) | JOther

  /** The store: book hash to saved value. */
  type ProgressStore = map<string, Json>

  /** `Url::parse`, which lies outside this model. */
  type UrlParser = string -> Option<Url>

  /** The JSON value saved for the current page and an optional percentage. */
  function ProgressValue(current: Option<Url>, percentage: Option<real>): (v: Json)
    ensures current.None? <==> v == JNull
    ensures current.Some? ==> v.JArray? && |v.elems| in {1, 2} && v.elems[0] == JString(current.value)
    ensures current.Some? ==> (|v.elems| == 2 <==> percentage.Some?)
    ensures current.Some? && percentage.Some? ==> v.elems[1] == JNumber(percentage.value)
  {
    match current
    case None => JNull
    case Some(u) =>
      match percentage
      case Some(f) => JArray([JString(u), JNumber(f)])
      case None => JArray([JString(u)])
  }

  /** `book_progress_save`: the value for the current page replaces this book's entry. */
  function Save(store: ProgressStore, hash: string, current: Option<Url>, percentage: Option<real>): (r: ProgressStore)
    ensures hash in r && r[hash] == ProgressValue(current, percentage)
    ensures r.Keys == store.Keys + {hash}
    ensures forall k :: k in store && k != hash ==> k in r && r[k] == store[k]
  {
    store[hash := ProgressValue(current, percentage)]
  }

  /** The outcome of `book_progress_load`: the saved page and percentage, and the current page afterwards. */
  datatype Loaded = Loaded(saved: Option<(Url, Option<real>)>, current: Option<Url>)

  /**
   * `book_progress_load`. Nothing is found, and the current page is left
   * alone, when the entry is missing, is not an array, or does not start
   * with a string. A string that does not parse as a URL clears the
   * current page. Otherwise that URL becomes the current page, returned
   * with the second element when it is a number.
   */
  function Load(store: ProgressStore, hash: string, current: Option<Url>, parse: UrlParser): (r: Loaded)
    ensures r.saved.Some? ==> r.current == Some(r.saved.value.0)
    ensures r.saved.None? ==> r.current == current || r.current.None?
    ensures r.saved.Some? <==>
      hash in store && store[hash].JArray? && |store[hash].elems| > 0 && store[hash].elems[0].JString?
      && parse(store[hash].elems[0].s).Some?
    ensures r.saved.Some? ==> r.saved.value.0 == parse(store[hash].elems[0].s).value
  {
    if hash !in store || !store[hash].JArray? then Loaded(None, current)
    else
      var vec := store[hash].elems;
      if |vec| == 0 || !vec[0].JString? then Loaded(None, current)
      else
        match parse(vec[0].s)
        case None => Loaded(None, None)
        case Some(page) =>
          var percentage := if |vec| > 1 && vec[1].JNumber? then Some(vec[1].n) else None;
          Loaded(Some((page, percentage)), Some(page))
  }

  /** Saving a page and loading it back yields the same page and percentage, given a URL that parses back to itself. */
  lemma SaveLoadRoundTrip(store: ProgressStore, hash: string, u: Url, percentage: Option<real>, before: Option<Url>, parse: UrlParser)
    requires parse(u) == Some(u)
    ensures Load(Save(store, hash, Some(u), percentage), hash, before, parse) == Loaded(Some((u, percentage)), Some(u))
  {
  }

  /** Saving with no current page makes the next load find nothing and keep the current page. */
  lemma SaveNothingLoadsNothing(store: ProgressStore, hash: string, before: Option<Url>, parse: UrlParser)
    ensures Load(Save(store, hash, None, None), hash, before, parse) == Loaded(None, before)
  {
  }

  /** Saving one book's progress does not change what another book loads. */
  lemma SaveIsolatesBooks(store: ProgressStore, hash: string, other: string, current: Option<Url>, percentage: Option<real>,
                          before: Option<Url>, parse: UrlParser)
    requires other != hash
    ensures Load(Save(store, hash, current, percentage), other, before, parse) == Load(store, other, before, parse)
  {
  }
}
