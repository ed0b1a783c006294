/**
 * The package document (`<package>`) of an EPUB: its data model, the
 * version, the manifest and the spine, following sections 2.2 to 2.4 of
 * OPF 2.0.1 and the EPUB 3.3 Package Document.
 *
 * Two revisions of the parser exist and share this model: the modular one
 * (`epub/package.rs`, whose ids are raw attribute bytes and whose manifest
 * keeps hrefs as written) and the single-file one (`epub.rs`, whose ids are
 * decoded strings and whose manifest resolves hrefs to URLs while parsing).
 */
module Opf {
  import opened Wrappers
  import opened XmlEvents
  import Ascii

  type Id = string

  /** A URL in its serialized form. Parsing and joining URLs are parameters of the model. */
  type Url = string

  /** `url::Url::join`: `None` is a `url::ParseError`. */
  type Joiner = (Url, string) -> Option<Url>

  datatype Revision = Modular | SingleFile

  /** `package::Error` (`PackageDocErr` in the single-file revision). */
  datatype PackageError = Generic | ManifestError | SpineError

  /** `OneOf<(Error, IoError)>`. */
  datatype PackageFailure = Invalid(error: PackageError) | Io

  /** `map_xml_err`: I/O errors stay I/O errors, every other XML error is `Generic`. */
  function MapXmlError(e: XmlError): (f: PackageFailure)
    ensures f == Io <==> e == XmlIo
    ensures f != Io ==> f == Invalid(Generic)
  {
    match e
    case XmlIo => Io
    case XmlMalformed => Invalid(Generic)
  }

  datatype Version = Epub2 | Epub3

  /** `<meta refines>` subexpression, or an OPF-namespaced attribute of an EPUB 2 Dublin Core element. */
  datatype Refinement = Refinement(property: string, value: string, lang: Option<string>, scheme: Option<string>)

  /**
   * A metadata item. `legacy` marks an XHTML 1.1 style `<meta name content/>`;
   * the single-file revision has no such field and always leaves it false.
   */
  datatype MetadataItem = MetadataItem(
    id: Option<Id>,
    property: string,
    value: string,
    lang: Option<string>,
    refined: seq<Refinement>,
    legacy: bool)

  /**
   * A manifest item. `location` is the href as written in the modular
   * revision and the href resolved against the package document URL in the
   * single-file one.
   */
  datatype ResourceItem = ResourceItem(location: string, mediaType: string, properties: Option<string>)

  datatype Itemref = Itemref(idref: Id, properties: Option<string>)

  datatype Spine = Spine(toc: Option<Id>, itemrefs: seq<Itemref>)

  datatype Package = Package(version: Version, metadata: seq<MetadataItem>, manifest: map<Id, ResourceItem>, spine: Spine)

  /** The parser's output before any event is read: EPUB 2, nothing else. */
  const EmptyPackage := Package(Epub2, [], map[], Spine(None, []))

  /** An attribute holding an id: raw bytes in the modular revision, decoded text in the single-file one. */
  function GetId(rev: Revision, t: Tag, key: string): (r: Result<Option<string>, XmlError>)
    ensures rev == Modular ==> r == GetRaw(t, key)
    ensures rev == SingleFile ==> r == GetDecoded(t, key)
  {
    match rev
    case Modular => GetRaw(t, key)
    case SingleFile => GetDecoded(t, key)
  }

  /** The version named by a `version` attribute value. */
  function VersionOf(raw: string): (v: Version)
    ensures v == Epub3 <==> raw == "3.0"
  {
    Ascii.EqIgnoreCaseWithoutLetters(raw, "3.0");
    if Ascii.EqIgnoreCase(raw, "3.0") then Epub3 else Epub2
  }

  /** The version a `<package>` start tag sets; a missing or unreadable `version` attribute is `Generic`. */
  function PackageVersion(t: Tag): (r: Result<Version, PackageFailure>)
    ensures r.Failure? <==> !(GetRaw(t, "version").Success? && GetRaw(t, "version").value.Some?)
    ensures r.Failure? ==> r.error == Invalid(Generic)
    ensures r.Success? ==> (r.value == Epub3 <==> GetRaw(t, "version") == Success(Some("3.0")))
  {
    match GetRaw(t, "version")
    case Success(Some(v)) => Success(VersionOf(v))
    case _ => Failure(Invalid(Generic))
  }

  // ---------------------------------------------------------------- manifest

  /** Errors of `parse_manifest`: XML errors, a missing required attribute, an href that does not join. */
  datatype ManifestFailure = ManifestXml(xml: XmlError) | ManifestMissing | ManifestBadHref

  function MapManifestFailure(f: ManifestFailure): PackageFailure
  {
    match f
    case ManifestXml(e) => MapXmlError(e)
    case ManifestMissing => Invalid(ManifestError)
    case ManifestBadHref => Invalid(ManifestError)
  }

  /** The well-formed `Some` value of an attribute lookup. */
  predicate Found(r: Result<Option<string>, XmlError>)
  {
    r.Success? && r.value.Some?
  }

  /**
   * One `<item/>` of the manifest: `id`, `href` and `media-type` are
   * required, `properties` is optional. The single-file revision resolves
   * the href against `base` as soon as it has read it.
   */
  function ManifestEntry(rev: Revision, base: Url, join: Joiner, t: Tag): (r: Result<(Id, ResourceItem), ManifestFailure>)
    ensures r.Success? ==> Found(GetId(rev, t, "id")) && r.value.0 == GetId(rev, t, "id").value.value
    ensures r.Success? ==> Found(GetDecoded(t, "href")) && Found(GetDecoded(t, "media-type"))
    ensures r.Success? ==> r.value.1.mediaType == GetDecoded(t, "media-type").value.value
    ensures r.Success? && rev == Modular ==> r.value.1.location == GetDecoded(t, "href").value.value
    ensures r.Success? && rev == SingleFile ==> join(base, GetDecoded(t, "href").value.value) == Some(r.value.1.location)
    ensures r.Success? ==> GetDecoded(t, "properties").Success? && r.value.1.properties == GetDecoded(t, "properties").value
    ensures r == Failure(ManifestBadHref) ==> rev == SingleFile
  {
    match GetId(rev, t, "id")
    case Failure(e) => Failure(ManifestXml(e))
    case Success(None) => Failure(ManifestMissing)
    case Success(Some(id)) =>
      match GetDecoded(t, "href")
      case Failure(e) => Failure(ManifestXml(e))
      case Success(None) => Failure(ManifestMissing)
      case Success(Some(href)) =>
        var location :=
          if rev == Modular then Some(href) else join(base, href);
        if location.None? then Failure(ManifestBadHref)
        else
          match GetDecoded(t, "media-type")
          case Failure(e) => Failure(ManifestXml(e))
          case Success(None) => Failure(ManifestMissing)
          case Success(Some(mediaType)) =>
            match GetDecoded(t, "properties")
            case Failure(e) => Failure(ManifestXml(e))
            case Success(properties) => Success((id, ResourceItem(location.value, mediaType, properties)))
  }

  /** Every attribute of the tag is well-formed and decodes. */
  predicate CleanTag(t: Tag)
  {
    forall i :: 0 <= i < |t.attrs| ==> t.attrs[i].Valid? && t.attrs[i].attr.decoded.Some?
  }

  /** An attribute with this qualified name is present. */
  predicate HasAttr(t: Tag, key: string)
  {
    exists i :: 0 <= i < |t.attrs| && t.attrs[i].Valid? && t.attrs[i].attr.key == key
  }

  lemma CleanLookup(t: Tag, key: string)
    requires CleanTag(t)
    ensures Found(GetRaw(t, key)) <==> HasAttr(t, key)
    ensures Found(GetDecoded(t, key)) <==> HasAttr(t, key)
    ensures GetRaw(t, key).Success? && GetDecoded(t, key).Success?
  {
    assert Malformed !in t.attrs;
    match TryGetAttribute(t.attrs, key)
    case Success(None) =>
    case Success(Some(a)) =>
      var i :| 0 <= i < |t.attrs| && t.attrs[i] == Valid(a) && a.key == key;
      assert t.attrs[i].attr.decoded.Some?;
  }

  /**
   * For an item whose attributes are all readable: it is accepted exactly
   * when `id`, `href` and `media-type` are all present (and, in the
   * single-file revision, the href joins), and otherwise it is a manifest
   * error; `properties` may be absent.
   */
  lemma ManifestEntryRequiredAttributes(rev: Revision, base: Url, join: Joiner, t: Tag)
    requires CleanTag(t)
    ensures var r := ManifestEntry(rev, base, join, t);
      && (r.Success? <==>
            HasAttr(t, "id") && HasAttr(t, "href") && HasAttr(t, "media-type")
            && (rev == SingleFile ==> join(base, GetDecoded(t, "href").value.value).Some?))
      && (r.Failure? ==> MapManifestFailure(r.error) == Invalid(ManifestError))
      && (r.Success? ==> (r.value.1.properties.Some? <==> HasAttr(t, "properties")))
  {
    CleanLookup(t, "id");
    CleanLookup(t, "href");
    CleanLookup(t, "media-type");
    CleanLookup(t, "properties");
  }

  /**
   * What one event does to a loop that collects into `A`: either the loop
   * finishes (consuming the event, or not at the end of input), or it goes
   * on with a new accumulator.
   */
  datatype Step<A, E> = Finish(result: Result<A, E>, consumed: bool) | Continue(next: A)

  /** A newer binding if there is one, else the older. */
  function Shadow<T>(newer: Option<T>, older: Option<T>): Option<T>
  {
    if newer.Some? then newer else older
  }

  /** The item an event declares under `id`: an `<item/>` that parses and carries that id. */
  function DeclaredBy(rev: Revision, base: Url, join: Joiner, ev: Event, id: Id): Option<ResourceItem>
  {
    if IsEmptyOf(ev, "item") && ManifestEntry(rev, base, join, ev.tag).Success?
       && ManifestEntry(rev, base, join, ev.tag).value.0 == id
    then Some(ManifestEntry(rev, base, join, ev.tag).value.1)
    else None
  }

  /**
   * One event of `parse_manifest`: `</manifest>` and the end of input
   * finish with the map so far, an `<item/>` is inserted (replacing an
   * earlier item with the same id), anything else is skipped.
   */
  function ManifestStep(rev: Revision, base: Url, join: Joiner, ev: Event, acc: map<Id, ResourceItem>)
    : (r: Step<map<Id, ResourceItem>, ManifestFailure>)
    ensures ev == Eof ==> r == Finish(Success(acc), false)
    ensures r.Finish? ==> (r.consumed <==> ev != Eof)
    ensures r.Finish? && r.result.Success? ==> r.result.value == acc && (ev == Eof || IsEndOf(ev, "manifest"))
  {
    match ev
    case Eof => Finish(Success(acc), false)
    case Fail(e) => Finish(Failure(ManifestXml(e)), true)
    case End(n) => if LocalName(n) == "manifest" then Finish(Success(acc), true) else Continue(acc)
    case Empty(t) =>
      if LocalName(t.name) == "item" then
        match ManifestEntry(rev, base, join, t)
        case Failure(f) => Finish(Failure(f), true)
        case Success((id, item)) => Continue(acc[id := item])
      else Continue(acc)
    case _ => Continue(acc)
  }

  /** A continuing manifest event binds an id to the item it declares, if any, and leaves every other binding alone. */
  lemma ManifestStepDeclares(rev: Revision, base: Url, join: Joiner, ev: Event, acc: map<Id, ResourceItem>, id: Id)
    ensures var r := ManifestStep(rev, base, join, ev, acc);
      r.Continue? ==> Get(r.next, id) == Shadow(DeclaredBy(rev, base, join, ev, id), Get(acc, id))
  {
  }

  /**
   * `parse_manifest`: reads the events after `<manifest>` up to
   * `</manifest>` or the end of input. Returns the position of the next
   * unread event.
   */
  function ManifestLoop(rev: Revision, base: Url, join: Joiner, evs: seq<Event>, pos: nat, acc: map<Id, ResourceItem>)
    : (r: (Result<map<Id, ResourceItem>, ManifestFailure>, nat))
    ensures pos <= r.1 && (pos <= |evs| ==> r.1 <= |evs|)
    decreases |evs| - pos
  {
    match ManifestStep(rev, base, join, EventAt(evs, pos), acc)
    case Finish(result, consumed) => (result, if consumed then pos + 1 else pos)
    case Continue(next) => ManifestLoop(rev, base, join, evs, pos + 1, next)
  }

  /**
   * Reference definition of the manifest: the item that the LAST `<item/>`
   * with this id among the events `from .. to` declares.
   */
  function LastDeclared(rev: Revision, base: Url, join: Joiner, evs: seq<Event>, from: nat, to: nat, id: Id): Option<ResourceItem>
    decreases to - from
  {
    if to <= from then None
    else
      var later := LastDeclared(rev, base, join, evs, from + 1, to, id);
      if later.Some? then later else DeclaredBy(rev, base, join, EventAt(evs, from), id)
  }

  /** After a successful manifest parse, every id maps to the item of its last declaration. */
  lemma {:induction false} ManifestLastWins(rev: Revision, base: Url, join: Joiner, evs: seq<Event>, pos: nat,
                                            acc: map<Id, ResourceItem>, id: Id)
    requires ManifestLoop(rev, base, join, evs, pos, acc).0.Success?
    ensures var (r, stop) := ManifestLoop(rev, base, join, evs, pos, acc);
      Get(r.value, id) == Shadow(LastDeclared(rev, base, join, evs, pos, stop, id), Get(acc, id))
    decreases |evs| - pos
  {
    var done, next := ManifestTurn(rev, base, join, evs, pos, acc, id);
    if !done {
      ManifestLastWins(rev, base, join, evs, pos + 1, next, id);
    }
  }

  /**
   * One turn of the manifest loop, seen from the whole parse: either it
   * ends a successful parse having declared nothing, or it continues with
   * `next`, which binds `id` as the event declares, and the rest of the
   * parse is the loop from the following event.
   */
  lemma ManifestTurn(rev: Revision, base: Url, join: Joiner, evs: seq<Event>, pos: nat, acc: map<Id, ResourceItem>, id: Id)
    returns (done: bool, next: map<Id, ResourceItem>)
    ensures done && ManifestLoop(rev, base, join, evs, pos, acc).0.Success? ==>
      && ManifestLoop(rev, base, join, evs, pos, acc).0.value == acc
      && LastDeclared(rev, base, join, evs, pos, ManifestLoop(rev, base, join, evs, pos, acc).1, id) == None
    ensures !done ==>
      && pos < |evs|
      && ManifestLoop(rev, base, join, evs, pos, acc) == ManifestLoop(rev, base, join, evs, pos + 1, next)
      && Get(next, id) == Shadow(DeclaredBy(rev, base, join, EventAt(evs, pos), id), Get(acc, id))
      && var stop := ManifestLoop(rev, base, join, evs, pos + 1, next).1;
         LastDeclared(rev, base, join, evs, pos, stop, id)
           == Shadow(LastDeclared(rev, base, join, evs, pos + 1, stop, id), DeclaredBy(rev, base, join, EventAt(evs, pos), id))
  {
    var step := ManifestStep(rev, base, join, EventAt(evs, pos), acc);
    done := step.Finish?;
    if done {
      next := acc;
      assert LastDeclared(rev, base, join, evs, pos + 1, pos + 1, id) == None;
    } else {
      next := step.next;
      ManifestStepDeclares(rev, base, join, EventAt(evs, pos), acc, id);
    }
  }

  // ------------------------------------------------------------------- spine

  /** Errors of `parse_spine`: XML errors, or an `<itemref/>` without `idref`. */
  datatype SpineFailure = SpineXml(xml: XmlError) | SpineMissingIdref

  function MapSpineFailure(f: SpineFailure): PackageFailure
  {
    match f
    case SpineXml(e) => MapXmlError(e)
    case SpineMissingIdref => Invalid(SpineError)
  }

  /**
   * One `<itemref/>`: `idref` is required. The modular revision also keeps
   * `properties`; the single-file one records the id only.
   */
  function ItemrefOf(rev: Revision, t: Tag): (r: Result<Itemref, SpineFailure>)
    ensures r == Failure(SpineMissingIdref) <==> GetId(rev, t, "idref") == Success(None)
    ensures r.Success? ==> Found(GetId(rev, t, "idref")) && r.value.idref == GetId(rev, t, "idref").value.value
    ensures r.Success? && rev == SingleFile ==> r.value.properties.None?
  {
    match GetId(rev, t, "idref")
    case Failure(e) => Failure(SpineXml(e))
    case Success(None) => Failure(SpineMissingIdref)
    case Success(Some(idref)) =>
      if rev == SingleFile then Success(Itemref(idref, None))
      else
        match GetDecoded(t, "properties")
        case Failure(e) => Failure(SpineXml(e))
        case Success(properties) => Success(Itemref(idref, properties))
  }

  /** The itemref an event contributes: an `<itemref/>` that parses. */
  function ContributedBy(rev: Revision, ev: Event): seq<Itemref>
  {
    if IsEmptyOf(ev, "itemref") && ItemrefOf(rev, ev.tag).Success? then [ItemrefOf(rev, ev.tag).value] else []
  }

  /** One event of `parse_spine`: `</spine>` and the end of input finish, an `<itemref/>` is appended. */
  function SpineStep(rev: Revision, ev: Event, acc: seq<Itemref>): (r: Step<seq<Itemref>, SpineFailure>)
    ensures ev == Eof ==> r == Finish(Success(acc), false)
    ensures r.Finish? ==> (r.consumed <==> ev != Eof)
    ensures r.Finish? && r.result.Success? ==> r.result.value == acc && (ev == Eof || IsEndOf(ev, "spine"))
    ensures r.Finish? && r.result == Failure(SpineMissingIdref) ==>
      IsEmptyOf(ev, "itemref") && GetId(rev, ev.tag, "idref") == Success(None)
    ensures r.Continue? ==> r.next == acc + ContributedBy(rev, ev)
  {
    match ev
    case Eof => Finish(Success(acc), false)
    case Fail(e) => Finish(Failure(SpineXml(e)), true)
    case End(n) => if LocalName(n) == "spine" then Finish(Success(acc), true) else Continue(acc)
    case Empty(t) =>
      if LocalName(t.name) == "itemref" then
        match ItemrefOf(rev, t)
        case Failure(f) => Finish(Failure(f), true)
        case Success(itemref) => Continue(acc + [itemref])
      else Continue(acc)
    case _ => Continue(acc)
  }

  /** `parse_spine`: collects the itemrefs after `<spine>` up to `</spine>` or the end of input. */
  function SpineLoop(rev: Revision, evs: seq<Event>, pos: nat, acc: seq<Itemref>)
    : (r: (Result<seq<Itemref>, SpineFailure>, nat))
    ensures pos <= r.1 && (pos <= |evs| ==> r.1 <= |evs|)
    ensures r.0 == Failure(SpineMissingIdref) ==>
      exists k :: pos <= k < |evs| && IsEmptyOf(evs[k], "itemref") && GetId(rev, evs[k].tag, "idref") == Success(None)
    // A successful parse keeps every itemref read, in document order.
    ensures r.0.Success? ==> r.0.value == acc + ItemrefsIn(rev, evs, pos, r.1)
    decreases |evs| - pos
  {
    var ev := EventAt(evs, pos);
    match SpineStep(rev, ev, acc)
    case Finish(result, consumed) =>
      assert result.Success? && consumed ==> ItemrefsIn(rev, evs, pos, pos + 1) == ContributedBy(rev, ev) == [];
      assert result == Failure(SpineMissingIdref) ==> pos < |evs| && evs[pos] == ev;
      (result, if consumed then pos + 1 else pos)
    case Continue(next) =>
      var r := SpineLoop(rev, evs, pos + 1, next);
      assert r.0.Success? ==> ItemrefsIn(rev, evs, pos, r.1) == ContributedBy(rev, ev) + ItemrefsIn(rev, evs, pos + 1, r.1);
      AppendAssoc(acc, ContributedBy(rev, ev), ItemrefsIn(rev, evs, pos + 1, r.1));
      r
  }

  lemma AppendAssoc<T>(a: seq<T>, b: seq<T>, c: seq<T>)
    ensures (a + b) + c == a + (b + c)
  {
  }

  /** Reference definition: the itemrefs declared by the events `from .. to`, in document order. */
  function ItemrefsIn(rev: Revision, evs: seq<Event>, from: nat, to: nat): seq<Itemref>
    decreases to - from
  {
    if to <= from then [] else ContributedBy(rev, EventAt(evs, from)) + ItemrefsIn(rev, evs, from + 1, to)
  }

  /** The `toc` attribute of `<spine>`: raw bytes or decoded text; an unreadable one is `Generic`. */
  function SpineToc(rev: Revision, t: Tag): (r: Result<Option<Id>, PackageFailure>)
    ensures r.Success? <==> GetId(rev, t, "toc").Success?
    ensures r.Success? ==> r.value == GetId(rev, t, "toc").value
    ensures r.Failure? ==> r.error == Invalid(Generic)
  {
    match GetId(rev, t, "toc")
    case Failure(_) => Failure(Invalid(Generic))
    case Success(toc) => Success(toc)
  }
}
