/**
 * The reader's commands in lib.rs: fetching a reading-order document,
 * landing on the saved or the first page, stepping through the reading
 * order, jumping to a URL, and serving any other resource of the book.
 * The application state is passed in and returned; locking, windows and
 * the store's file I/O are left out. lib.rs works with the single-file
 * revision of the book, whose resource locations are absolute URLs.
 */
module Commands {
  import opened Wrappers
  import opened Ascii
  import opened Opf
  import opened Book
  import opened Navigation
  import opened Progress

  newtype byte = x: int | 0 <= x < 256

  /** `AnyErr`, restricted to the variants these commands produce. */
  datatype AnyErr = Io | StoreUnavailable | EpubUrlNotFound | EpubContent

  const MimeXhtml := "application/xhtml+xml"
  const MimeSvg := "image/svg+xml"
  const MimeCss := "text/css"

  /** `str::from_utf8`, which lies outside this model. */
  type Utf8Decoder = seq<byte> -> Option<string>

  /** `alter_xhtml` / `alter_css`, which are not part of this model: `None` leaves the text as it was. */
  type Alterer = string -> Option<string>

  /** Standard base64 encoding (section 4 of RFC 4648), which lies outside this model. */
  type Base64 = seq<byte> -> string

  /**
   * The opened archive: the zip index built when the book was opened, and
   * the contents of each entry, `None` when reading it fails with an I/O error.
   */
  datatype BookFile = BookFile(index: map<Url, nat>, entry: nat -> Option<seq<byte>>)

  /** `EpubArchive::read_to_end`: the bytes of the entry indexed under a URL. */
  function ReadToEnd(f: BookFile, u: Url): (r: Result<seq<byte>, AnyErr>)
    ensures r.Success? <==> u in f.index && f.entry(f.index[u]).Some?
    ensures r.Success? ==> r.value == f.entry(f.index[u]).value
    ensures r.Failure? ==> (r.error == EpubUrlNotFound <==> u !in f.index) && (r.error == AnyErr.Io <==> u in f.index)
  {
    if u !in f.index then Failure(EpubUrlNotFound)
    else
      match f.entry(f.index[u])
      case None => Failure(AnyErr.Io)
      case Some(bytes) => Success(bytes)
  }

  /** `EpubArchive::read_to_string`: as `ReadToEnd`, and bytes that are not UTF-8 are an I/O error. */
  function ReadToString(f: BookFile, u: Url, utf8: Utf8Decoder): (r: Result<string, AnyErr>)
    ensures r.Success? <==> ReadToEnd(f, u).Success? && utf8(ReadToEnd(f, u).value).Some?
    ensures r.Success? ==> r.value == utf8(ReadToEnd(f, u).value).value
    ensures r.Failure? ==> r.error == (if ReadToEnd(f, u).Failure? then ReadToEnd(f, u).error else AnyErr.Io)
  {
    match ReadToEnd(f, u)
    case Failure(e) => Failure(e)
    case Success(bytes) =>
      match utf8(bytes)
      case None => Failure(AnyErr.Io)
      case Some(text) => Success(text)
  }

  /** `SpineItem`: the document handed to the front end. */
  datatype SpineItem = SpineItem(position: nat, path: Url, text: string, mimetype: string)

  predicate IsXhtml(item: ResourceItem)
  {
    EqIgnoreCase(item.mediaType, MimeXhtml)
  }

  predicate IsSvg(item: ResourceItem)
  {
    EqIgnoreCase(item.mediaType, MimeSvg)
  }

  /**
   * `book_get_content`: only SVG and XHTML documents, their media types
   * compared ignoring ASCII case, are read; XHTML text is replaced by what
   * the alterer makes of it, when it makes something.
   */
  function BookGetContent(f: BookFile, utf8: Utf8Decoder, alterXhtml: Alterer, item: ResourceItem): (r: Result<SpineItem, AnyErr>)
    ensures !IsSvg(item) && !IsXhtml(item) ==> r == Failure(EpubContent)
    ensures IsSvg(item) || IsXhtml(item) ==>
      (r.Success? <==> ReadToString(f, item.location, utf8).Success?) &&
      (r.Failure? ==> r.error == ReadToString(f, item.location, utf8).error)
    ensures r.Success? ==> r.value.path == item.location && r.value.mimetype == item.mediaType && r.value.position == 99
    // The text is the document as stored unless it is XHTML and the alterer rewrote it.
    ensures r.Success? ==> var raw := ReadToString(f, item.location, utf8).value;
      r.value.text == raw || (IsXhtml(item) && alterXhtml(raw) == Some(r.value.text))
    ensures r.Success? && IsXhtml(item) && alterXhtml(ReadToString(f, item.location, utf8).value).Some? ==>
      r.value.text == alterXhtml(ReadToString(f, item.location, utf8).value).value
  {
    if !IsSvg(item) && !IsXhtml(item) then Failure(EpubContent)
    else
      match ReadToString(f, item.location, utf8)
      case Failure(e) => Failure(e)
      case Success(raw) =>
        var text := if IsXhtml(item) then (match alterXhtml(raw) case Some(c) => c case None => raw) else raw;
        Success(SpineItem(99, item.location, text, item.mediaType))
  }

  /** An SVG document is served as stored, whatever the alterer would do. */
  lemma SvgNotAltered(f: BookFile, utf8: Utf8Decoder, a: Alterer, b: Alterer, item: ResourceItem)
    requires !IsXhtml(item)
    ensures BookGetContent(f, utf8, a, item) == BookGetContent(f, utf8, b, item)
  {
  }

  /** The state the commands share: the open book, its archive, its hash and the current page. */
  datatype AppData = AppData(book: Epub, file: BookFile, hash: string, current: Option<Url>)

  /** What a command returns, the state it leaves and the progress store after it; or a panic. */
  datatype Outcome<T> = Done(result: Result<T, AnyErr>, state: AppData, store: ProgressStore) | Panicked

  /** Whether the saved progress names a page the book has. */
  predicate Resumable(s: AppData, store: ProgressStore, parse: UrlParser)
  {
    var loaded := Load(store, s.hash, s.current, parse);
    loaded.saved.Some? && loaded.saved.value.0 in s.book.indexes
  }

  /**
   * `book_get_init_page`: the saved page with its percentage when it is
   * in the book; otherwise the first resource, which becomes the current
   * page and is saved without a percentage. Indexing the resources of a
   * book that has none panics.
   */
  function BookGetInitPage(s: AppData, store: ProgressStore, parse: UrlParser, utf8: Utf8Decoder, alterXhtml: Alterer)
    : (r: Outcome<(SpineItem, Option<real>)>)
    requires Valid(s.book)
    ensures r.Panicked? <==> !Resumable(s, store, parse) && |s.book.resources| == 0
    ensures r.Done? ==> r.state.book == s.book && r.state.file == s.file && r.state.hash == s.hash
    // Resuming: the saved page becomes current, and the store is left alone.
    ensures Resumable(s, store, parse) ==>
      var (u, pct) := Load(store, s.hash, s.current, parse).saved.value;
      r.Done? && r.state.current == Some(u) && r.store == store &&
      r.result == (match BookGetContent(s.file, utf8, alterXhtml, Resource(s.book, u).value)
                   case Success(item) => Success((item, pct))
                   case Failure(e) => Failure(e))
    // Falling back: the first resource becomes current and is saved.
    ensures !Resumable(s, store, parse) && r.Done? ==>
      var start := s.book.resources[0];
      r.state.current == Some(start.location) && r.store == Save(store, s.hash, Some(start.location), None) &&
      r.result == (match BookGetContent(s.file, utf8, alterXhtml, start)
                   case Success(item) => Success((item, None))
                   case Failure(e) => Failure(e))
  {
    var loaded := Load(store, s.hash, s.current, parse);
    var s1 := s.(current := loaded.current);
    if loaded.saved.Some? && NavigateTo(s.book, loaded.saved.value.0).Success? then
      var item := NavigateTo(s.book, loaded.saved.value.0).value.0;
      match BookGetContent(s.file, utf8, alterXhtml, item)
      case Failure(e) => Done(Failure(e), s1, store)
      case Success(spine) => Done(Success((spine, loaded.saved.value.1)), s1, store)
    else
      match NavigateToStart(s.book)
      case None => Panicked
      case Some(item) =>
        var s2 := s1.(current := Some(item.location));
        var store2 := Save(store, s.hash, s2.current, None);
        match BookGetContent(s.file, utf8, alterXhtml, item)
        case Failure(e) => Done(Failure(e), s2, store2)
        case Success(spine) => Done(Success((spine, None)), s2, store2)
  }

  /**
   * `navigate_adjacent`: the neighbour in the reading order becomes the
   * current page and is saved. At either end of the reading order nothing
   * changes. With no current page the unwrap panics. `window.store`
   * failing is modelled by `storeOpens`.
   */
  function NavigateAdjacent(s: AppData, store: ProgressStore, storeOpens: bool, forward: bool,
                            utf8: Utf8Decoder, alterXhtml: Alterer): (r: Outcome<Option<SpineItem>>)
    requires Valid(s.book)
    ensures r.Panicked? <==> s.current.None?
    ensures r.Done? ==> r.state.book == s.book && r.state.file == s.file && r.state.hash == s.hash
    ensures s.current.Some? && NavigateFrom(s.book, s.current.value, forward).Failure? ==>
      r == Done(Failure(EpubUrlNotFound), s, store)
    // At a boundary: no page, and nothing changes.
    ensures s.current.Some? && NavigateFrom(s.book, s.current.value, forward) == Success(None) ==>
      r == Done(Success(None), s, store)
    // Otherwise the destination becomes current and, when the store opens, is saved.
    ensures s.current.Some? && NavigateFrom(s.book, s.current.value, forward).Success? && NavigateFrom(s.book, s.current.value, forward).value.Some? ==>
      var dest := NavigateFrom(s.book, s.current.value, forward).value.value;
      r.Done? && r.state.current == Some(dest.location) &&
      (storeOpens ==> (r.store == Save(store, s.hash, Some(dest.location), None) &&
        r.result == (match BookGetContent(s.file, utf8, alterXhtml, dest)
                     case Success(item) => Success(Some(item))
                     case Failure(e) => Failure(e)))) &&
      (!storeOpens ==> r.result == Failure(StoreUnavailable) && r.store == store)
  {
    if s.current.None? then Panicked
    else
      match NavigateFrom(s.book, s.current.value, forward)
      case Failure(_) => Done(Failure(EpubUrlNotFound), s, store)
      case Success(None) => Done(Success(None), s, store)
      case Success(Some(dest)) =>
        var s1 := s.(current := Some(dest.location));
        if !storeOpens then Done(Failure(StoreUnavailable), s1, store)
        else
          var store1 := Save(store, s.hash, s1.current, None);
          match BookGetContent(s.file, utf8, alterXhtml, dest)
          case Failure(e) => Done(Failure(e), s1, store1)
          case Success(item) => Done(Success(Some(item)), s1, store1)
  }

  /**
   * `navigate_to`: the resource at the URL becomes the current page and is
   * saved, whether or not it has a reading position.
   */
  function NavigateToPage(s: AppData, store: ProgressStore, storeOpens: bool, path: Url,
                          utf8: Utf8Decoder, alterXhtml: Alterer): (r: Outcome<SpineItem>)
    requires Valid(s.book)
    ensures r.Done?
    ensures r.state.book == s.book && r.state.file == s.file && r.state.hash == s.hash
    ensures path !in s.book.indexes ==> r == Done(Failure(EpubUrlNotFound), s, store)
    ensures path in s.book.indexes ==>
      var item := Resource(s.book, path).value;
      r.state.current == Some(item.location) &&
      (storeOpens ==> (r.store == Save(store, s.hash, Some(item.location), None) &&
        r.result == BookGetContent(s.file, utf8, alterXhtml, item))) &&
      (!storeOpens ==> r.result == Failure(StoreUnavailable) && r.store == store)
  {
    match NavigateTo(s.book, path)
    case Failure(_) => Done(Failure(EpubUrlNotFound), s, store)
    case Success((item, _)) =>
      var s1 := s.(current := Some(item.location));
      if !storeOpens then Done(Failure(StoreUnavailable), s1, store)
      else Done(BookGetContent(s.file, utf8, alterXhtml, item), s1, Save(store, s.hash, s1.current, None))
  }

  /**
   * Jumping to a page and reopening the book lands on that page again:
   * `navigate_to` saves what `book_get_init_page` resumes from.
   */
  lemma NavigateThenReopen(s: AppData, store: ProgressStore, path: Url, parse: UrlParser, utf8: Utf8Decoder, alterXhtml: Alterer)
    requires Valid(s.book) && path in s.book.indexes
    requires var item := Resource(s.book, path).value; parse(item.location) == Some(item.location) && item.location in s.book.indexes
    ensures var after := NavigateToPage(s, store, true, path, utf8, alterXhtml);
      var reopened := BookGetInitPage(after.state, after.store, parse, utf8, alterXhtml);
      reopened.Done? && reopened.state.current == after.state.current && reopened.store == after.store &&
      reopened.result == (match BookGetContent(s.file, utf8, alterXhtml, Resource(s.book, Resource(s.book, path).value.location).value)
                          case Success(item) => Success((item, None))
                          case Failure(e) => Failure(e))
  {
    var after := NavigateToPage(s, store, true, path, utf8, alterXhtml);
    var item := Resource(s.book, path).value;
    SaveLoadRoundTrip(store, s.hash, item.location, None, after.state.current, parse);
  }

  /**
   * Landing on the first page saves it, so opening the book again resumes
   * there and saves nothing new.
   */
  lemma InitPageSettles(s: AppData, store: ProgressStore, parse: UrlParser, utf8: Utf8Decoder, alterXhtml: Alterer)
    requires Valid(s.book) && |s.book.resources| > 0 && !Resumable(s, store, parse)
    requires var start := s.book.resources[0].location; parse(start) == Some(start) && start in s.book.indexes
    ensures var first := BookGetInitPage(s, store, parse, utf8, alterXhtml);
      var second := BookGetInitPage(first.state, first.store, parse, utf8, alterXhtml);
      second.Done? && second.state == first.state && second.store == first.store
  {
    var first := BookGetInitPage(s, store, parse, utf8, alterXhtml);
    var start := s.book.resources[0].location;
    SaveLoadRoundTrip(store, s.hash, start, None, first.state.current, parse);
  }

  /** `MIMETYPE_CSS` is compared exactly; the image and text prefixes are case-sensitive too. */
  predicate IsImage(mime: string)
  {
    StartsWith(mime, "image/")
  }

  predicate IsText(mime: string)
  {
    StartsWith(mime, "text/")
  }

  /**
   * `get_resource`: images become a base64 data payload after their media
   * type, text must be UTF-8 and is served as is except CSS, which goes
   * through the alterer; anything else is served as the empty string.
   */
  function GetResource(s: AppData, path: Url, utf8: Utf8Decoder, alterCss: Alterer, base64: Base64): (r: Result<string, AnyErr>)
    requires Valid(s.book)
    ensures path !in s.book.indexes ==> r == Failure(EpubUrlNotFound)
    ensures path in s.book.indexes ==>
      var item := Resource(s.book, path).value;
      var mime := item.mediaType;
      var bytes := ReadToEnd(s.file, item.location);
      (bytes.Failure? ==> r == Failure(bytes.error)) &&
      (bytes.Success? && IsImage(mime) ==>
        r.Success? && StartsWith(r.value, mime + ";base64,") && r.value[|mime| + 8..] == base64(bytes.value)) &&
      (bytes.Success? && !IsImage(mime) && IsText(mime) ==>
        (r.Failure? <==> utf8(bytes.value).None?) && (r.Failure? ==> r.error == EpubContent) &&
        (r.Success? && mime != MimeCss ==> r.value == utf8(bytes.value).value) &&
        (r.Success? && mime == MimeCss ==>
          r.value == (match alterCss(utf8(bytes.value).value) case Some(c) => c case None => utf8(bytes.value).value))) &&
      (bytes.Success? && !IsImage(mime) && !IsText(mime) ==> r == Success(""))
  {
    match Resource(s.book, path)
    case Failure(_) => Failure(EpubUrlNotFound)
    case Success(item) =>
      var mime := item.mediaType;
      match ReadToEnd(s.file, item.location)
      case Failure(e) => Failure(e)
      case Success(bytes) =>
        if IsImage(mime) then
          var out := mime + ";base64," + base64(bytes);
          assert out[..|mime + ";base64,"|] == mime + ";base64,";
          Success(out)
        else if IsText(mime) then
          match utf8(bytes)
          case None => Failure(EpubContent)
          case Some(text) =>
            if mime == MimeCss then Success(match alterCss(text) case Some(c) => c case None => text)
            else Success(text)
        else Success("")
  }
}
