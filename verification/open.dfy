/**
 * `Epub::open`: index the archive, read the container file, parse the
 * package document it names, and build the book.
 */
module EpubOpen {
  import opened Wrappers
  import opened XmlEvents
  import opened Opf
  import opened Book
  import opened EpubArchive
  import OpfPackage

  /** Errors of `ZipArchive::new`: I/O, or anything else wrong with the archive. */
  datatype ZipFailure = ZipIo | ZipInvalid

  /** How opening ends: with a book or an error, or never, when the package parse spins at the end of input. */
  datatype Opening = Opened(result: Result<Epub, OpenError>) | Hangs

  /** The URL of the container file. */
  function ContainerUrl(join: Joiner): Option<Url>
  {
    join(BaseUrl, "META-INF/container.xml")
  }

  /**
   * The manifest map's iteration order: for every manifest, some listing
   * of all its ids. Which listing is left open, as the map's hashing is.
   */
  ghost predicate OrdersEvery(order: map<Id, ResourceItem> -> seq<Id>)
  {
    forall m: map<Id, ResourceItem> :: ListsEvery(order(m), m)
  }

  /**
   * The steps before the package parse: index the archive, read the
   * container file, and find the package document's URL and events.
   */
  function LocatePackage(zip: Result<seq<Option<string>>, ZipFailure>, entries: nat -> seq<Event>, join: Joiner)
    : (r: Result<(Url, seq<Event>), OpenError>)
    requires ContainerUrl(join).Some?
    ensures zip == Failure(ZipIo) ==> r == Failure(OpenIo)
    ensures zip == Failure(ZipInvalid) ==> r == Failure(Archive)
    ensures zip.Success? && ContainerUrl(join).value !in ZipIndex(zip.value, BaseUrl, join) ==> r == Failure(ContainerFile)
    ensures r.Failure? ==> r.error in {OpenIo, Archive, ContainerFile, PackageDoc(Generic)}
    ensures r.Success? ==>
      && zip.Success?
      && var index := ZipIndex(zip.value, BaseUrl, join);
      && ContainerUrl(join).value in index
      && ParseContainer(BaseUrl, join, entries(index[ContainerUrl(join).value])) == Success(r.value.0)
      && r.value.0 in index
      && r.value.1 == entries(index[r.value.0])
  {
    match zip
    case Failure(ZipIo) => Failure(OpenIo)
    case Failure(ZipInvalid) => Failure(Archive)
    case Success(names) =>
      var index := ZipIndex(names, BaseUrl, join);
      var containerUrl := ContainerUrl(join).value;
      if containerUrl !in index then Failure(ContainerFile)
      else
        match ParseContainer(BaseUrl, join, entries(index[containerUrl]))
        case Failure(ContainerIo) => Failure(OpenIo)
        case Failure(ContainerInvalid) => Failure(ContainerFile)
        case Success(docUrl) =>
          if docUrl !in index then Failure(PackageDoc(Generic))
          else Success((docUrl, entries(index[docUrl])))
  }

  /** A package parse failure as an open error: I/O stays I/O, anything else is a package document error. */
  function OpenErrorOf(f: PackageFailure): (r: OpenError)
    ensures r == OpenIo <==> f.Io?
    ensures f.Invalid? ==> r == PackageDoc(f.error)
  {
    match f
    case Io => OpenIo
    case Invalid(e) => PackageDoc(e)
  }

  /**
   * Opens a book as the code does. The archive is given by its entry
   * names (or the error reading it), `entries(i)` is the XML event stream
   * of entry `i`, and `order` the manifest map's iteration order. A
   * package document without `</package>` never finishes opening, and
   * the book's reading order holds every resource.
   */
  function Open(rev: Revision, zip: Result<seq<Option<string>>, ZipFailure>, entries: nat -> seq<Event>, join: Joiner,
                order: map<Id, ResourceItem> -> seq<Id>)
    : (r: Opening)
    requires ContainerUrl(join).Some? && OrdersEvery(order)
    ensures LocatePackage(zip, entries, join).Failure? ==> r == Opened(Failure(LocatePackage(zip, entries, join).error))
    ensures r == Hangs <==>
      && LocatePackage(zip, entries, join).Success?
      && var (docUrl, evs) := LocatePackage(zip, entries, join).value;
      OpfPackage.ParseAsWritten(rev, docUrl, join, evs) == OpfPackage.Spins
    ensures LocatePackage(zip, entries, join).Success? ==>
      var (docUrl, evs) := LocatePackage(zip, entries, join).value;
      var p := OpfPackage.ParseAsWritten(rev, docUrl, join, evs);
      && (p.Rejected? ==> r == Opened(Failure(OpenErrorOf(p.failure))))
      && (p.Parsed? ==> r == Opened(BuildAsWritten(rev, join, docUrl, p.pkg, order(p.pkg.manifest))))
    ensures r.Opened? && r.result.Success? ==> Book.Valid(r.result.value)
    ensures r == Opened(Failure(InvalidHref)) ==> rev == Modular
  {
    match LocatePackage(zip, entries, join)
    case Failure(e) => Opened(Failure(e))
    case Success((docUrl, evs)) =>
      match OpfPackage.ParseAsWritten(rev, docUrl, join, evs)
      case Spins => Hangs
      case Rejected(f) => Opened(Failure(OpenErrorOf(f)))
      case Parsed(pkg) =>
        assert ListsEvery(order(pkg.manifest), pkg.manifest);
        Opened(BuildAsWritten(rev, join, docUrl, pkg, order(pkg.manifest)))
  }

  /**
   * Opening with both slips corrected: a package document without
   * `</package>` is malformed, and the reading order is the itemrefs alone.
   */
  function OpenCorrected(rev: Revision, zip: Result<seq<Option<string>>, ZipFailure>, entries: nat -> seq<Event>, join: Joiner,
                         order: map<Id, ResourceItem> -> seq<Id>)
    : (r: Result<Epub, OpenError>)
    requires ContainerUrl(join).Some? && OrdersEvery(order)
    ensures LocatePackage(zip, entries, join).Failure? ==> r == Failure(LocatePackage(zip, entries, join).error)
    ensures LocatePackage(zip, entries, join).Success? ==>
      var (docUrl, evs) := LocatePackage(zip, entries, join).value;
      var p := OpfPackage.Parse(rev, docUrl, join, evs);
      && (p.Failure? ==> r == Failure(OpenErrorOf(p.error)))
      && (p.Success? ==> r == Build(rev, join, docUrl, p.value, order(p.value.manifest)))
    ensures r.Success? ==> Book.Valid(r.value)
    ensures r == Failure(InvalidHref) ==> rev == Modular
  {
    match LocatePackage(zip, entries, join)
    case Failure(e) => Failure(e)
    case Success((docUrl, evs)) =>
      match OpfPackage.Parse(rev, docUrl, join, evs)
      case Failure(f) => Failure(OpenErrorOf(f))
      case Success(pkg) =>
        assert ListsEvery(order(pkg.manifest), pkg.manifest);
        Build(rev, join, docUrl, pkg, order(pkg.manifest))
  }

  /**
   * The two openings agree: where the code hangs the corrected one reports
   * a malformed package document, they fail alike, and they succeed
   * together with the same book except that the corrected reading order
   * stops after the itemrefs.
   */
  lemma OpenAgreesWithCorrected(rev: Revision, zip: Result<seq<Option<string>>, ZipFailure>, entries: nat -> seq<Event>, join: Joiner,
                                order: map<Id, ResourceItem> -> seq<Id>)
    requires ContainerUrl(join).Some? && OrdersEvery(order)
    ensures Open(rev, zip, entries, join, order) == Hangs ==>
      OpenCorrected(rev, zip, entries, join, order) == Failure(PackageDoc(Generic))
    ensures Open(rev, zip, entries, join, order).Opened? && Open(rev, zip, entries, join, order).result.Failure? ==>
      OpenCorrected(rev, zip, entries, join, order) == Open(rev, zip, entries, join, order).result
    ensures (Open(rev, zip, entries, join, order).Opened? && Open(rev, zip, entries, join, order).result.Success?) <==>
      OpenCorrected(rev, zip, entries, join, order).Success?
    ensures OpenCorrected(rev, zip, entries, join, order).Success? ==>
      var w := Open(rev, zip, entries, join, order).result.value;
      var c := OpenCorrected(rev, zip, entries, join, order).value;
      c == w.(spine := c.spine) && c.spine <= w.spine
  {
    var loc := LocatePackage(zip, entries, join);
    if loc.Success? {
      var (docUrl, evs) := loc.value;
      var p := OpfPackage.ParseAsWritten(rev, docUrl, join, evs);
      if p.Parsed? {
        assert ListsEvery(order(p.pkg.manifest), p.pkg.manifest);
        AssembliesAgree(rev, join, docUrl, p.pkg, order(p.pkg.manifest));
      }
    }
  }

  /**
   * What an opened book holds, as the code builds it: one resource per
   * manifest item, the itemrefs' items first in reading order, and a
   * reading order that runs through every resource.
   */
  lemma OpenedBook(rev: Revision, zip: Result<seq<Option<string>>, ZipFailure>, entries: nat -> seq<Event>, join: Joiner,
                   order: map<Id, ResourceItem> -> seq<Id>)
    requires ContainerUrl(join).Some? && OrdersEvery(order)
    requires Open(rev, zip, entries, join, order).Opened? && Open(rev, zip, entries, join, order).result.Success?
    ensures LocatePackage(zip, entries, join).Success?
    ensures var (docUrl, evs) := LocatePackage(zip, entries, join).value;
      OpfPackage.ParseAsWritten(rev, docUrl, join, evs).Parsed?
    ensures var (docUrl, evs) := LocatePackage(zip, entries, join).value;
      var pkg := OpfPackage.ParseAsWritten(rev, docUrl, join, evs).pkg;
      var e := Open(rev, zip, entries, join, order).result.value;
      && |e.resources| == |pkg.manifest|
      && (forall id :: id in pkg.manifest ==> pkg.manifest[id] in e.resources)
      && |pkg.spine.itemrefs| <= |e.resources|
      && (forall i :: 0 <= i < |pkg.spine.itemrefs| ==>
            pkg.spine.itemrefs[i].idref in pkg.manifest && e.resources[i] == pkg.manifest[pkg.spine.itemrefs[i].idref])
      && e.spine == Range(0, |e.resources|)
  {
    var (docUrl, evs) := LocatePackage(zip, entries, join).value;
    var pkg := OpfPackage.ParseAsWritten(rev, docUrl, join, evs).pkg;
    var order' := order(pkg.manifest);
    assert ListsEvery(order', pkg.manifest);
    BookResourcesAreManifest(rev, join, docUrl, pkg, order', true);
    ReadingOrderStartsWithItemrefs(rev, join, docUrl, pkg, order', true);
    AsWrittenSpineHasEveryResource(rev, join, docUrl, pkg, order');
  }
}
