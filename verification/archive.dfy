/**
 * The EPUB container: the ZIP archive's entry names indexed by URL, and
 * the container file `META-INF/container.xml` that names the package
 * document (section 3 of the Open Container Format 3.0).
 */
module EpubArchive {
  import opened Wrappers
  import opened XmlEvents
  import opened Opf

  /** The URL every archive path is resolved against. */
  const BaseUrl: Url := "epub:/"

  /** An entry name with Windows separators turned into `/`. */
  function Normalize(name: string): (r: string)
    ensures |r| == |name|
    ensures '\\' !in r
    ensures forall i :: 0 <= i < |name| && name[i] != '\\' ==> r[i] == name[i]
  {
    seq(|name|, i requires 0 <= i < |name| => if name[i] == '\\' then '/' else name[i])
  }

  /** Normalizing twice changes nothing more. */
  lemma NormalizeIdempotent(name: string)
    ensures Normalize(Normalize(name)) == Normalize(name)
  {
  }

  /** A directory entry: its name ends with `/`. */
  predicate IsDirectory(name: string)
  {
    |name| > 0 && name[|name| - 1] == '/'
  }

  /**
   * The URL the i-th entry is indexed under: entries without a name,
   * directories and names that do not resolve are not indexed.
   */
  function EntryUrl(names: seq<Option<string>>, i: nat, base: Url, join: Joiner): Option<Url>
    requires i < |names|
  {
    if names[i].None? then None
    else
      var name := Normalize(names[i].value);
      if IsDirectory(name) then None else join(base, name)
  }

  /** `EpubArchive::new`'s index, built from entry `i` on (a later entry replaces an earlier one with the same URL). */
  function IndexFrom(names: seq<Option<string>>, i: nat, base: Url, join: Joiner, acc: map<Url, nat>): (r: map<Url, nat>)
    requires i <= |names|
    requires forall u :: u in acc ==> acc[u] < i && EntryUrl(names, acc[u], base, join) == Some(u)
    ensures forall u :: u in r ==> r[u] < |names| && EntryUrl(names, r[u], base, join) == Some(u)
    ensures forall u :: u in acc ==> u in r && r[u] >= acc[u]
    ensures forall j :: i <= j < |names| && EntryUrl(names, j, base, join).Some? ==>
      EntryUrl(names, j, base, join).value in r && r[EntryUrl(names, j, base, join).value] >= j
    decreases |names| - i
  {
    if i == |names| then acc
    else
      match EntryUrl(names, i, base, join)
      case None => IndexFrom(names, i + 1, base, join, acc)
      case Some(u) => IndexFrom(names, i + 1, base, join, acc[u := i])
  }

  /** The archive index: URL to entry position. */
  function ZipIndex(names: seq<Option<string>>, base: Url, join: Joiner): map<Url, nat>
  {
    IndexFrom(names, 0, base, join, map[])
  }

  /**
   * Every indexed URL leads to an entry with that URL, and every entry
   * with a URL is reachable through it: through the last entry having it.
   */
  lemma ZipIndexIsLastEntry(names: seq<Option<string>>, base: Url, join: Joiner, u: Url)
    ensures u in ZipIndex(names, base, join) <==> exists j :: 0 <= j < |names| && EntryUrl(names, j, base, join) == Some(u)
    ensures u in ZipIndex(names, base, join) ==>
      var k := ZipIndex(names, base, join)[u];
      && k < |names| && EntryUrl(names, k, base, join) == Some(u)
      && forall j :: k < j < |names| ==> EntryUrl(names, j, base, join) != Some(u)
  {
  }

  /** `get_reader`'s lookup: the entry position for a URL. */
  function EntryFor(index: map<Url, nat>, u: Url): (r: Option<nat>)
    ensures r.Some? <==> u in index
    ensures r.Some? ==> r.value == index[u]
  {
    Get(index, u)
  }

  // -------------------------------------------------------- container file

  /** Errors of `parse_container_file`. */
  datatype ContainerFailure = ContainerInvalid | ContainerIo

  /** A `<rootfile>` start or empty tag. */
  predicate IsRootfile(ev: Event)
  {
    (ev.Start? || ev.Empty?) && LocalName(ev.tag.name) == "rootfile"
  }

  /** The URL a rootfile names: its `full-path`, decoded and resolved. */
  function RootfileUrl(base: Url, join: Joiner, t: Tag): Option<Url>
  {
    match TryGetAttribute(t.attrs, "full-path")
    case Success(Some(a)) => if a.decoded.Some? then join(base, a.decoded.value) else None
    case _ => None
  }

  /**
   * `parse_container_file`: the first `<rootfile>` decides. Its resolved
   * `full-path` is the package document's URL; a missing or unreadable one,
   * or reaching the end of input, is an invalid container file.
   */
  function ParseContainerFrom(base: Url, join: Joiner, evs: seq<Event>, pos: nat): (r: Result<Url, ContainerFailure>)
    decreases |evs| - pos
  {
    var ev := EventAt(evs, pos);
    if ev.Eof? then Failure(ContainerInvalid)
    else if ev.Fail? then Failure(if ev.error == XmlIo then ContainerIo else ContainerInvalid)
    else if IsRootfile(ev) then
      match RootfileUrl(base, join, ev.tag)
      case Some(u) => Success(u)
      case None => Failure(ContainerInvalid)
    else ParseContainerFrom(base, join, evs, pos + 1)
  }

  function ParseContainer(base: Url, join: Joiner, evs: seq<Event>): Result<Url, ContainerFailure>
  {
    ParseContainerFrom(base, join, evs, 0)
  }

  /**
   * The first rootfile decides: its URL, or an invalid container file when
   * its `full-path` is missing or does not resolve, whatever follows.
   */
  lemma FirstRootfileDecides(base: Url, join: Joiner, evs: seq<Event>, k: nat)
    requires k < |evs| && IsRootfile(evs[k])
    requires forall j :: 0 <= j < k ==> !IsRootfile(evs[j]) && !evs[j].Fail? && !evs[j].Eof?
    ensures ParseContainer(base, join, evs) ==
      (if RootfileUrl(base, join, evs[k].tag).Some? then Success(RootfileUrl(base, join, evs[k].tag).value) else Failure(ContainerInvalid))
  {
    FirstRootfileDecidesFrom(base, join, evs, 0, k);
  }

  lemma {:induction false} FirstRootfileDecidesFrom(base: Url, join: Joiner, evs: seq<Event>, pos: nat, k: nat)
    requires pos <= k < |evs| && IsRootfile(evs[k])
    requires forall j :: pos <= j < k ==> !IsRootfile(evs[j]) && !evs[j].Fail? && !evs[j].Eof?
    ensures ParseContainerFrom(base, join, evs, pos) ==
      (if RootfileUrl(base, join, evs[k].tag).Some? then Success(RootfileUrl(base, join, evs[k].tag).value) else Failure(ContainerInvalid))
    decreases k - pos
  {
    if pos < k {
      SkipToRootfile(base, join, evs, pos);
      FirstRootfileDecidesFrom(base, join, evs, pos + 1, k);
    } else {
      AtRootfile(base, join, evs, pos);
    }
  }

  lemma AtRootfile(base: Url, join: Joiner, evs: seq<Event>, pos: nat)
    requires pos < |evs| && IsRootfile(evs[pos])
    ensures ParseContainerFrom(base, join, evs, pos) ==
      (if RootfileUrl(base, join, evs[pos].tag).Some? then Success(RootfileUrl(base, join, evs[pos].tag).value) else Failure(ContainerInvalid))
  {
  }

  lemma SkipToRootfile(base: Url, join: Joiner, evs: seq<Event>, pos: nat)
    requires pos < |evs| && !IsRootfile(evs[pos]) && !evs[pos].Fail? && !evs[pos].Eof?
    ensures ParseContainerFrom(base, join, evs, pos) == ParseContainerFrom(base, join, evs, pos + 1)
  {
  }

  /** The `<rootfile>` of the container file in the test of `epub/mod.rs`. */
  const ExampleRootfile := Tag("rootfile", None, [
    Valid(Attr("full-path", None, "EPUB/As_You_Like_It.opf", Some("EPUB/As_You_Like_It.opf"))),
    Valid(Attr("media-type", None, "application/oebps-package+xml", Some("application/oebps-package+xml")))])

  /** That container file, reduced to its events. */
  const ExampleContainer: seq<Event> := [
    Start(Tag("container", None, [])),
    Start(Tag("rootfiles", None, [])),
    Empty(ExampleRootfile),
    End("rootfiles"),
    End("container")]

  lemma ExampleRootfileUrl(join: Joiner)
    requires join(BaseUrl, "EPUB/As_You_Like_It.opf") == Some("epub:/EPUB/As_You_Like_It.opf")
    ensures RootfileUrl(BaseUrl, join, ExampleRootfile) == Some("epub:/EPUB/As_You_Like_It.opf")
  {
    assert TryGetAttribute(ExampleRootfile.attrs, "full-path") == Success(Some(ExampleRootfile.attrs[0].attr));
  }

  lemma ExampleContainerNotRootfile()
    ensures !IsRootfile(ExampleContainer[0])
  {
    assert ':' !in "container";
  }

  lemma ExampleRootfilesNotRootfile()
    ensures !IsRootfile(ExampleContainer[1])
  {
    assert ':' !in "rootfiles";
  }

  lemma ExampleRootfileIsThird()
    ensures IsRootfile(ExampleContainer[2])
  {
    assert ':' !in "rootfile";
  }

  /** The container file of the test in `epub/mod.rs` names the package document `EPUB/As_You_Like_It.opf`. */
  lemma ContainerExample(join: Joiner)
    requires join(BaseUrl, "EPUB/As_You_Like_It.opf") == Some("epub:/EPUB/As_You_Like_It.opf")
    ensures ParseContainer(BaseUrl, join, ExampleContainer) == Success("epub:/EPUB/As_You_Like_It.opf")
  {
    ExampleRootfileUrl(join);
    ExampleContainerNotRootfile();
    ExampleRootfilesNotRootfile();
    ExampleRootfileIsThird();
    SkipToRootfile(BaseUrl, join, ExampleContainer, 0);
    SkipToRootfile(BaseUrl, join, ExampleContainer, 1);
    AtRootfile(BaseUrl, join, ExampleContainer, 2);
  }
}
