/**
 * The top-level loop of the package document parser: `<package>` sets
 * the version, `<metadata>`, `<manifest>` and `<spine>` hand over to their
 * section parsers, `</package>` ends the parse.
 */
module OpfPackage {
  import opened Wrappers
  import opened XmlEvents
  import opened Opf
  import OpfMetadata

  /** How the top-level loop stops: at `</package>`, on an error, or at the end of input. */
  datatype Stop = Closed(pkg: Package) | Broke(failure: PackageFailure) | Exhausted(pkg: Package)

  /** One round of the top-level loop: stop, or resume at `next` with the package so far. */
  datatype Progress = Done(stop: Stop) | Resume(next: nat, out: Package)

  /** One round of the top-level loop, reading the event at `pos` and whatever section it opens. */
  function PackageStep(rev: Revision, base: Url, join: Joiner, evs: seq<Event>, pos: nat, out: Package): (r: Progress)
    ensures r.Resume? ==> pos < r.next <= |evs|
    ensures r == Done(Exhausted(out)) <==> EventAt(evs, pos) == Eof
    ensures r.Done? && r.stop.Exhausted? ==> r.stop.pkg == out
    ensures r.Done? && r.stop.Closed? ==> r.stop.pkg == out && pos < |evs| && IsEndOf(evs[pos], "package")
  {
    match EventAt(evs, pos)
    case Eof => Done(Exhausted(out))
    case Fail(e) => Done(Broke(MapXmlError(e)))
    case End(n) => if LocalName(n) == "package" then Done(Closed(out)) else Resume(pos + 1, out)
    case Start(t) =>
      var local := LocalName(t.name);
      if local == "package" then
        match PackageVersion(t)
        case Failure(f) => Done(Broke(f))
        case Success(v) => Resume(pos + 1, out.(version := v))
      else if local == "metadata" then
        var (r, next) := OpfMetadata.ParseMetadata(rev, out.version, evs, pos + 1);
        match r
        case Failure(e) => Done(Broke(MapXmlError(e)))
        case Success(items) => Resume(next, out.(metadata := items))
      else if local == "manifest" then
        var (r, next) := ManifestLoop(rev, base, join, evs, pos + 1, map[]);
        match r
        case Failure(f) => Done(Broke(MapManifestFailure(f)))
        case Success(m) => Resume(next, out.(manifest := m))
      else if local == "spine" then
        match SpineToc(rev, t)
        case Failure(f) => Done(Broke(f))
        case Success(toc) =>
          var (r, next) := SpineLoop(rev, evs, pos + 1, []);
          match r
          case Failure(f) => Done(Broke(MapSpineFailure(f)))
          case Success(itemrefs) => Resume(next, out.(spine := Spine(toc, itemrefs)))
      else Resume(pos + 1, out)
    case Empty(_) => Resume(pos + 1, out)
    case Text(_, _) => Resume(pos + 1, out)
    case Other => Resume(pos + 1, out)
  }

  /** The top-level loop from `pos`; it closes only at a `</package>`. */
  function Run(rev: Revision, base: Url, join: Joiner, evs: seq<Event>, pos: nat, out: Package): (r: Stop)
    ensures r.Closed? ==> exists k :: pos <= k < |evs| && IsEndOf(evs[k], "package")
    decreases |evs| - pos
  {
    match PackageStep(rev, base, join, evs, pos, out)
    case Done(stop) => stop
    case Resume(next, o) => Run(rev, base, join, evs, next, o)
  }

  /** What a parse can do when nothing bounds it: finish, fail, or never return. */
  datatype Outcome = Parsed(pkg: Package) | Rejected(failure: PackageFailure) | Spins

  /**
   * `Package::new` / `PackageParser::parse` as written: the top-level loop
   * has no arm for the end of input, and reading past the end yields the
   * end of input again, so a document that ends before `</package>` keeps
   * the parser looping for ever.
   */
  function ParseAsWritten(rev: Revision, base: Url, join: Joiner, evs: seq<Event>): (r: Outcome)
    ensures r.Parsed? ==> exists k :: 0 <= k < |evs| && IsEndOf(evs[k], "package")
  {
    match Run(rev, base, join, evs, 0, EmptyPackage)
    case Closed(p) => Parsed(p)
    case Broke(f) => Rejected(f)
    case Exhausted(_) => Spins
  }

  /**
   * The parse with the end of input treated as a malformed document: it
   * agrees with the parse as written whenever that returns, and rejects
   * every document without `</package>`.
   */
  function Parse(rev: Revision, base: Url, join: Joiner, evs: seq<Event>): (r: Result<Package, PackageFailure>)
    ensures r.Success? ==> exists k :: 0 <= k < |evs| && IsEndOf(evs[k], "package")
    ensures ParseAsWritten(rev, base, join, evs) == Spins ==> r == Failure(Invalid(Generic))
    ensures ParseAsWritten(rev, base, join, evs).Parsed? ==> r == Success(ParseAsWritten(rev, base, join, evs).pkg)
    ensures ParseAsWritten(rev, base, join, evs).Rejected? ==> r == Failure(ParseAsWritten(rev, base, join, evs).failure)
  {
    match Run(rev, base, join, evs, 0, EmptyPackage)
    case Closed(p) => Success(p)
    case Broke(f) => Failure(f)
    case Exhausted(_) => Failure(Invalid(Generic))
  }

  /** An event no arm of the top-level loop acts on. */
  predicate Inert(ev: Event)
  {
    ev.Text? || ev.Other? || ev.Empty?
  }

  /** Over events the loop ignores, the loop runs into the end of input untouched. */
  lemma {:induction false} RunOverInert(rev: Revision, base: Url, join: Joiner, evs: seq<Event>, pos: nat, out: Package)
    requires forall k :: pos <= k < |evs| ==> Inert(evs[k])
    ensures Run(rev, base, join, evs, pos, out) == Exhausted(out)
    decreases |evs| - pos
  {
    if pos < |evs| {
      RunOverInert(rev, base, join, evs, pos + 1, out);
    }
  }

  /** Counterexample: a document without elements, such as an empty file, never returns. */
  lemma EmptyDocumentSpins(rev: Revision, base: Url, join: Joiner, evs: seq<Event>)
    requires forall k :: 0 <= k < |evs| ==> Inert(evs[k])
    ensures ParseAsWritten(rev, base, join, evs) == Spins
    ensures Parse(rev, base, join, evs) == Failure(Invalid(Generic))
  {
    RunOverInert(rev, base, join, evs, 0, EmptyPackage);
  }

  /** Counterexample: a document cut off after its `<package>` tag never returns. */
  lemma TruncatedPackageSpins(rev: Revision, base: Url, join: Joiner)
    ensures ParseAsWritten(rev, base, join, [Start(PackageTag("3.0"))]) == Spins
    ensures Parse(rev, base, join, [Start(PackageTag("3.0"))]) == Failure(Invalid(Generic))
  {
    var evs := [Start(PackageTag("3.0"))];
    assert LocalName("package") == "package";
    assert GetRaw(PackageTag("3.0"), "version") == Success(Some("3.0"));
    assert PackageStep(rev, base, join, evs, 0, EmptyPackage) == Resume(1, EmptyPackage.(version := Epub3));
  }

  /** A `<package>` tag carrying only a `version` attribute. */
  function PackageTag(version: string): Tag
  {
    Tag("package", Some(OpfNamespace), [Valid(Attr("version", None, version, Some(version)))])
  }

  /** `version="3.0"` yields EPUB 3, any other version EPUB 2, and a missing one is `Generic`. */
  lemma PackageVersionFromTag(rev: Revision, base: Url, join: Joiner, version: string)
    ensures var evs := [Start(PackageTag(version)), End("package")];
      Parse(rev, base, join, evs) == Success(EmptyPackage.(version := if version == "3.0" then Epub3 else Epub2))
    ensures Parse(rev, base, join, [Start(Tag("package", None, [])), End("package")]) == Failure(Invalid(Generic))
    ensures Parse(rev, base, join, [End("package")]) == Success(EmptyPackage)
  {
    var evs := [Start(PackageTag(version)), End("package")];
    assert LocalName("package") == "package";
    assert GetRaw(PackageTag(version), "version") == Success(Some(version));
    assert PackageStep(rev, base, join, evs, 0, EmptyPackage) == Resume(1, EmptyPackage.(version := VersionOf(version)));
    assert Run(rev, base, join, evs, 1, EmptyPackage.(version := VersionOf(version))) == Closed(EmptyPackage.(version := VersionOf(version)));
    var bare := [Start(Tag("package", None, [])), End("package")];
    assert GetRaw(Tag("package", None, []), "version") == Success(None);
    assert PackageStep(rev, base, join, bare, 0, EmptyPackage) == Done(Broke(Invalid(Generic)));
    assert PackageStep(rev, base, join, [End("package")], 0, EmptyPackage) == Done(Closed(EmptyPackage));
  }
}
