/**
 * What the reader asks of an opened book: moving through the reading
 * order, jumping to a URL, the resource at a URL, the landing page, the
 * title, the cover and the navigation document.
 */
module Navigation {
  import opened Wrappers
  import opened Opf
  import opened Book
  import Properties

  /** `UrlNotFoundErr`: no resource is indexed under the URL. */
  datatype UrlNotFound = UrlNotFound

  /**
   * `navigate_from`: the neighbour, in the reading order, of the resource
   * at `current`. `None` when that resource has no reading position or
   * the neighbour would fall off either end.
   */
  function NavigateFrom(e: Epub, current: Url, forward: bool): (r: Result<Option<ResourceItem>, UrlNotFound>)
    requires Valid(e)
    ensures r.Failure? <==> current !in e.indexes
    ensures r.Success? ==> (r.value.Some? <==>
      e.indexes[current].si.Some? &&
        (if forward then e.indexes[current].si.value + 1 < |e.spine| else e.indexes[current].si.value > 0))
    ensures r.Success? && r.value.Some? ==>
      var si := e.indexes[current].si.value;
      r.value.value == e.resources[e.spine[if forward then si + 1 else si - 1]]
  {
    if current !in e.indexes then Failure(UrlNotFound)
    else
      match e.indexes[current].si
      case None => Success(None)
      case Some(si) =>
        if forward then
          if si == |e.spine| - 1 then Success(None) else Success(Some(e.resources[e.spine[si + 1]]))
        else
          if si == 0 then Success(None) else Success(Some(e.resources[e.spine[si - 1]]))
  }

  /** `resource`: the resource indexed under a URL. */
  function Resource(e: Epub, u: Url): (r: Result<ResourceItem, UrlNotFound>)
    requires Valid(e)
    ensures r.Success? <==> u in e.indexes
    ensures r.Success? ==> r.value == e.resources[e.indexes[u].ri]
  {
    if u in e.indexes then Success(e.resources[e.indexes[u].ri]) else Failure(UrlNotFound)
  }

  /** `navigate_to`: the resource at a URL and whether it has a reading position. */
  function NavigateTo(e: Epub, dest: Url): (r: Result<(ResourceItem, bool), UrlNotFound>)
    requires Valid(e)
    ensures r.Success? <==> Resource(e, dest).Success?
    ensures r.Success? ==> r.value.0 == Resource(e, dest).value
    ensures r.Success? ==> (r.value.1 <==>
      exists i :: 0 <= i < |e.spine| && e.indexes[dest].si == Some(i) && e.resources[e.spine[i]] == r.value.0)
  {
    if dest !in e.indexes then Failure(UrlNotFound)
    else Success((e.resources[e.indexes[dest].ri], e.indexes[dest].si.Some?))
  }

  /**
   * `navigate_to_start`: the first resource. `None` stands for the panic
   * of indexing an empty resource list.
   */
  function NavigateToStart(e: Epub): (r: Option<ResourceItem>)
    ensures r.None? <==> |e.resources| == 0
    ensures r.Some? ==> r.value == e.resources[0]
  {
    if |e.resources| == 0 then None else Some(e.resources[0])
  }

  /** `title`: the first metadata item whose property is `title`. */
  function Title(e: Epub): (r: Option<MetadataItem>)
    ensures r.Some? <==> exists i :: 0 <= i < |e.metadata| && e.metadata[i].property == "title"
    ensures r.Some? ==> exists i :: (0 <= i < |e.metadata| && e.metadata[i] == r.value && r.value.property == "title"
      && forall j :: 0 <= j < i ==> e.metadata[j].property != "title")
  {
    Find(e.metadata, (m: MetadataItem) => m.property == "title")
  }

  /** The item's `properties` attribute lists the given property. */
  predicate HasProperty(item: ResourceItem, property: string)
  {
    Properties.HasOpt(item.properties, property)
  }

  /** The first resource listing a property, if any. */
  function FirstWith(resources: seq<ResourceItem>, property: string): (r: Option<ResourceItem>)
    ensures r.Some? <==> exists i :: 0 <= i < |resources| && HasProperty(resources[i], property)
    ensures r.Some? ==> exists i :: (0 <= i < |resources| && resources[i] == r.value && HasProperty(r.value, property)
      && forall j :: 0 <= j < i ==> !HasProperty(resources[j], property))
  {
    Find(resources, (item: ResourceItem) => HasProperty(item, property))
  }

  /**
   * `cover`: in an EPUB 3 book the first resource with the `cover-image`
   * property; failing that, or in an EPUB 2 book, the legacy cover.
   */
  function Cover(e: Epub): (r: Option<ResourceItem>)
    requires Valid(e)
    ensures e.version == Epub3 && FirstWith(e.resources, "cover-image").Some? ==> r == FirstWith(e.resources, "cover-image")
    ensures e.version == Epub2 || FirstWith(e.resources, "cover-image").None? ==>
      (r.Some? <==> e.legacyCover.Some?) && (r.Some? ==> r.value == e.resources[e.legacyCover.value])
  {
    var found := if e.version == Epub3 then FirstWith(e.resources, "cover-image") else None;
    if found.Some? then found
    else if e.legacyCover.Some? then Some(e.resources[e.legacyCover.value])
    else None
  }

  /** `nav`: the first resource with the `nav` property in an EPUB 3 book; an EPUB 2 book has none. */
  function Nav(e: Epub): (r: Option<ResourceItem>)
    ensures e.version == Epub2 ==> r.None?
    ensures e.version == Epub3 ==> (r.Some? <==> exists i :: 0 <= i < |e.resources| && HasProperty(e.resources[i], "nav"))
    ensures r.Some? ==> exists i :: (0 <= i < |e.resources| && e.resources[i] == r.value && HasProperty(r.value, "nav")
      && forall j :: 0 <= j < i ==> !HasProperty(e.resources[j], "nav"))
  {
    match e.version
    case Epub3 => FirstWith(e.resources, "nav")
    case Epub2 => None
  }

  /**
   * Moving forward and back are inverse: if `u` and `v` sit at adjacent
   * reading positions, forward from `u` reaches `v`'s resource and back
   * from `v` reaches `u`'s.
   */
  lemma NavigateInverse(e: Epub, u: Url, v: Url)
    requires Valid(e)
    requires u in e.indexes && v in e.indexes
    requires e.indexes[u].si.Some? && e.indexes[v].si == Some(e.indexes[u].si.value + 1)
    ensures NavigateFrom(e, u, true) == Success(Some(Resource(e, v).value))
    ensures NavigateFrom(e, v, false) == Success(Some(Resource(e, u).value))
  {
  }

  /** In either assembly, the resource found at a URL is one whose href resolves to that URL. */
  lemma ResourceLivesAtItsUrl(rev: Revision, join: Joiner, docUrl: Url, pkg: Package, order: seq<Id>, inSpine: bool, u: Url)
    requires ListsEvery(order, pkg.manifest) && BuildBook(rev, join, docUrl, pkg, order, inSpine).Success?
    requires Resource(BuildBook(rev, join, docUrl, pkg, order, inSpine).value, u).Success?
    ensures KeyOf(rev, join, docUrl, Resource(BuildBook(rev, join, docUrl, pkg, order, inSpine).value, u).value) == Some(u)
  {
  }

  /** With the reading order made of the itemrefs alone, moving never leaves it. */
  lemma NavigationStaysInReadingOrder(rev: Revision, join: Joiner, docUrl: Url, pkg: Package, order: seq<Id>, u: Url, forward: bool)
    requires ListsEvery(order, pkg.manifest) && Build(rev, join, docUrl, pkg, order).Success?
    requires var e := Build(rev, join, docUrl, pkg, order).value;
      NavigateFrom(e, u, forward).Success? && NavigateFrom(e, u, forward).value.Some?
    ensures var item := NavigateFrom(Build(rev, join, docUrl, pkg, order).value, u, forward).value.value;
      exists i :: 0 <= i < |pkg.spine.itemrefs| && pkg.spine.itemrefs[i].idref in pkg.manifest
        && item == pkg.manifest[pkg.spine.itemrefs[i].idref]
  {
    SpineIsItemrefs(rev, join, docUrl, pkg, order);
    var e := Build(rev, join, docUrl, pkg, order).value;
    var si := e.indexes[u].si.value;
    var k := if forward then si + 1 else si - 1;
    assert e.spine[k] == k;
  }

  /**
   * In either assembly, `navigate_to` reports a reading position exactly
   * for an itemref's item: the items appended after the itemrefs are
   * indexed without one, even where they join the reading order.
   */
  lemma InSpineMeansItemref(rev: Revision, join: Joiner, docUrl: Url, pkg: Package, order: seq<Id>, inSpine: bool, u: Url)
    requires ListsEvery(order, pkg.manifest) && BuildBook(rev, join, docUrl, pkg, order, inSpine).Success?
    requires NavigateTo(BuildBook(rev, join, docUrl, pkg, order, inSpine).value, u).Success?
    ensures var e := BuildBook(rev, join, docUrl, pkg, order, inSpine).value;
      var ri := e.indexes[u].ri;
      && (NavigateTo(e, u).value.1 <==> ri < |pkg.spine.itemrefs|)
      && (NavigateTo(e, u).value.1 ==>
            pkg.spine.itemrefs[ri].idref in pkg.manifest
            && NavigateTo(e, u).value.0 == pkg.manifest[pkg.spine.itemrefs[ri].idref])
  {
    BookIndexes(rev, join, docUrl, pkg, order, inSpine);
    ReadingOrderStartsWithItemrefs(rev, join, docUrl, pkg, order, inSpine);
  }

  /** In either assembly, the landing page is the first itemref's item whenever there is an itemref. */
  lemma StartIsFirstItemref(rev: Revision, join: Joiner, docUrl: Url, pkg: Package, order: seq<Id>, inSpine: bool)
    requires ListsEvery(order, pkg.manifest) && BuildBook(rev, join, docUrl, pkg, order, inSpine).Success?
    requires |pkg.spine.itemrefs| > 0
    ensures pkg.spine.itemrefs[0].idref in pkg.manifest
    ensures NavigateToStart(BuildBook(rev, join, docUrl, pkg, order, inSpine).value) == Some(pkg.manifest[pkg.spine.itemrefs[0].idref])
  {
    ReadingOrderStartsWithItemrefs(rev, join, docUrl, pkg, order, inSpine);
  }

  // ------------------------------------------------ the reading-order finding

  const SampleChapter := ResourceItem("epub:/a.xhtml", "application/xhtml+xml", None)
  const SampleImage := ResourceItem("epub:/b.png", "image/png", None)

  /** One chapter in the reading order and one image outside it. */
  const SamplePackage := Package(Epub3, [], map["a" := SampleChapter, "b" := SampleImage], Spine(None, [Itemref("a", None)]))

  /**
   * Counterexample: as written, moving forward from the last chapter
   * lands on the image, an item no itemref names. Built with the itemrefs
   * alone, the last chapter has no successor.
   */
  lemma ForwardFromLastChapterReachesImage(join: Joiner)
    ensures BuildAsWritten(SingleFile, join, "epub:/p.opf", SamplePackage, ["a", "b"]).Success?
    ensures NavigateFrom(BuildAsWritten(SingleFile, join, "epub:/p.opf", SamplePackage, ["a", "b"]).value, "epub:/a.xhtml", true)
      == Success(Some(SampleImage))
    ensures Build(SingleFile, join, "epub:/p.opf", SamplePackage, ["a", "b"]).Success?
    ensures NavigateFrom(Build(SingleFile, join, "epub:/p.opf", SamplePackage, ["a", "b"]).value, "epub:/a.xhtml", true)
      == Success(None)
  {
    var pkg := SamplePackage;
    var b0 := StartBuilder(pkg);
    assert CoverId(pkg.metadata) == None;
    var b1 := TakeItemref(SingleFile, join, "epub:/p.opf", "a", None, None, b0);
    assert IndexItemrefs(SingleFile, join, "epub:/p.opf", [Itemref("a", None)], None, None, b0) == Success(b1);
    assert b1.remaining == map["b" := SampleImage];
    assert b1.indexes == map["epub:/a.xhtml" := ResourceIndex(0, Some(0))];
    var w := TakeLeftover(SingleFile, join, "epub:/p.opf", "b", true, b1);
    assert ["a", "b"][1..] == ["b"];
    assert IndexLeftovers(SingleFile, join, "epub:/p.opf", ["a", "b"], true, b1) == Success(w);
    assert w.spine == [0, 1] && w.resources == [SampleChapter, SampleImage];
    assert w.indexes["epub:/a.xhtml"] == ResourceIndex(0, Some(0));
    var c := TakeLeftover(SingleFile, join, "epub:/p.opf", "b", false, b1);
    assert IndexLeftovers(SingleFile, join, "epub:/p.opf", ["a", "b"], false, b1) == Success(c);
    assert c.spine == [0];
    assert c.indexes["epub:/a.xhtml"] == ResourceIndex(0, Some(0));
  }
}
