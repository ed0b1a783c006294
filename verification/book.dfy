/**
 * An opened book: every manifest item as a resource, the reading order
 * (spine) as positions into the resources, and a URL index. Building it
 * from a parsed package document, and the queries the reader makes of it.
 */
module Book {
  import opened Wrappers
  import opened Opf
  import Properties

  /** Position of a resource, and its position in the reading order if it has one. */
  datatype ResourceIndex = ResourceIndex(ri: nat, si: Option<nat>)

  datatype Epub = Epub(
    version: Version,
    metadata: seq<MetadataItem>,
    resources: seq<ResourceItem>,
    spine: seq<nat>,
    indexes: map<Url, ResourceIndex>,
    legacyToc: Option<nat>,
    legacyCover: Option<nat>)

  /** Errors of `Epub::open` (`EpubError`), with I/O errors folded in. */
  datatype OpenError = Archive | ContainerFile | PackageDoc(error: PackageError) | InvalidHref | OpenIo

  /** Every position stored in the book points at a resource. */
  predicate Valid(e: Epub)
  {
    && (forall i :: 0 <= i < |e.spine| ==> e.spine[i] < |e.resources|)
    && (forall u :: u in e.indexes ==> ValidIndex(e.indexes[u], e.resources, e.spine))
    && (e.legacyToc.Some? ==> e.legacyToc.value < |e.resources|)
    && (e.legacyCover.Some? ==> e.legacyCover.value < |e.resources|)
  }

  /** A resource index names a resource and, if it has a spine position, the spine names the same resource there. */
  predicate ValidIndex(x: ResourceIndex, resources: seq<ResourceItem>, spine: seq<nat>)
  {
    x.ri < |resources| && (x.si.Some? ==> x.si.value < |spine| && spine[x.si.value] == x.ri)
  }

  /**
   * The URL a resource is indexed under: the modular revision resolves the
   * href against the package document's URL here, the single-file one
   * resolved it while parsing the manifest.
   */
  function KeyOf(rev: Revision, join: Joiner, docUrl: Url, item: ResourceItem): Option<Url>
  {
    if rev == Modular then join(docUrl, item.location) else Some(item.location)
  }

  /** The state of `Epub::open` while it builds the resource indexes. */
  datatype Builder = Builder(
    resources: seq<ResourceItem>,
    spine: seq<nat>,
    indexes: map<Url, ResourceIndex>,
    remaining: map<Id, ResourceItem>,
    legacyToc: Option<nat>,
    legacyCover: Option<nat>)

  /** Positions are in range and every URL leads to a resource indexed under that URL. */
  predicate Sound(rev: Revision, join: Joiner, docUrl: Url, b: Builder)
  {
    && (forall i :: 0 <= i < |b.spine| ==> b.spine[i] < |b.resources|)
    && (forall u :: u in b.indexes ==> ValidIndex(b.indexes[u], b.resources, b.spine))
    && (forall u :: u in b.indexes ==> KeyOf(rev, join, docUrl, b.resources[b.indexes[u].ri]) == Some(u))
    && (b.legacyToc.Some? ==> b.legacyToc.value < |b.resources|)
    && (b.legacyCover.Some? ==> b.legacyCover.value < |b.resources|)
  }

  /** No idref occurs twice. */
  predicate DistinctIdrefs(itemrefs: seq<Itemref>)
  {
    forall i, j :: 0 <= i < j < |itemrefs| ==> itemrefs[i].idref != itemrefs[j].idref
  }

  /** The ids an itemref sequence names. */
  function IdrefSet(itemrefs: seq<Itemref>): set<Id>
  {
    set i | 0 <= i < |itemrefs| :: itemrefs[i].idref
  }

  /**
   * The iteration order of the manifest map lists every id it holds; the
   * loop over what is left of the manifest skips the ids already taken.
   */
  predicate ListsEvery(order: seq<Id>, manifest: map<Id, ResourceItem>)
  {
    forall id :: id in manifest ==> id in order
  }

  /** `lo, lo + 1, ..., lo + n - 1`. */
  function Range(lo: nat, n: nat): (r: seq<nat>)
    ensures |r| == n && forall i :: 0 <= i < n ==> r[i] == lo + i
  {
    seq(n, i requires 0 <= i < n => lo + i)
  }

  /**
   * One itemref's round: its item leaves the manifest, joins the resources
   * and the reading order, and is indexed under its URL.
   */
  function TakeItemref(rev: Revision, join: Joiner, docUrl: Url, idref: Id, tocId: Option<Id>, coverId: Option<Id>, b: Builder): (r: Builder)
    requires idref in b.remaining && KeyOf(rev, join, docUrl, b.remaining[idref]).Some?
    ensures r.resources == b.resources + [b.remaining[idref]]
    ensures r.spine == b.spine + [|b.resources|]
    ensures r.remaining == b.remaining - {idref}
    ensures r.legacyCover == if coverId == Some(idref) then Some(|b.resources|) else b.legacyCover
    ensures r.legacyToc == if tocId == Some(idref) then Some(|b.resources|) else b.legacyToc
    // Its URL now leads to the new resource at the new reading position; a URL indexed before is overwritten.
    ensures r.indexes == b.indexes[KeyOf(rev, join, docUrl, b.remaining[idref]).value := ResourceIndex(|b.resources|, Some(|b.spine|))]
  {
    var item := b.remaining[idref];
    var ri := |b.resources|;
    Builder(
      b.resources + [item],
      b.spine + [ri],
      b.indexes[KeyOf(rev, join, docUrl, item).value := ResourceIndex(ri, Some(|b.spine|))],
      b.remaining - {idref},
      if tocId == Some(idref) then Some(ri) else b.legacyToc,
      if coverId == Some(idref) then Some(ri) else b.legacyCover)
  }

  /**
   * The loop over the spine's itemrefs: an id missing from what is left of
   * the manifest (never declared, or already taken) is a spine error, an
   * href that does not resolve is an invalid href.
   */
  function IndexItemrefs(rev: Revision, join: Joiner, docUrl: Url, itemrefs: seq<Itemref>,
                         tocId: Option<Id>, coverId: Option<Id>, b: Builder): (r: Result<Builder, OpenError>)
    ensures r.Failure? ==> r.error == PackageDoc(SpineError) || (r.error == InvalidHref && rev == Modular)
    decreases |itemrefs|
  {
    if |itemrefs| == 0 then Success(b)
    else
      var idref := itemrefs[0].idref;
      if idref !in b.remaining then Failure(PackageDoc(SpineError))
      else if KeyOf(rev, join, docUrl, b.remaining[idref]).None? then Failure(InvalidHref)
      else IndexItemrefs(rev, join, docUrl, itemrefs[1..], tocId, coverId, TakeItemref(rev, join, docUrl, idref, tocId, coverId, b))
  }

  /** Taking an itemref keeps the builder sound: the new URL leads to the new resource. */
  lemma TakeItemrefSound(rev: Revision, join: Joiner, docUrl: Url, idref: Id, tocId: Option<Id>, coverId: Option<Id>, b: Builder)
    requires Sound(rev, join, docUrl, b)
    requires idref in b.remaining && KeyOf(rev, join, docUrl, b.remaining[idref]).Some?
    ensures Sound(rev, join, docUrl, TakeItemref(rev, join, docUrl, idref, tocId, coverId, b))
  {
    var r := TakeItemref(rev, join, docUrl, idref, tocId, coverId, b);
    forall u | u in r.indexes
      ensures ValidIndex(r.indexes[u], r.resources, r.spine)
      ensures KeyOf(rev, join, docUrl, r.resources[r.indexes[u].ri]) == Some(u)
    {
      if u != KeyOf(rev, join, docUrl, b.remaining[idref]).value {
        assert r.indexes[u] == b.indexes[u];
        assert r.resources[b.indexes[u].ri] == b.resources[b.indexes[u].ri];
      }
    }
  }

  /** The itemref loop keeps the builder sound. */
  lemma {:induction false} IndexItemrefsSound(rev: Revision, join: Joiner, docUrl: Url, itemrefs: seq<Itemref>,
                                              tocId: Option<Id>, coverId: Option<Id>, b: Builder)
    requires Sound(rev, join, docUrl, b)
    requires IndexItemrefs(rev, join, docUrl, itemrefs, tocId, coverId, b).Success?
    ensures Sound(rev, join, docUrl, IndexItemrefs(rev, join, docUrl, itemrefs, tocId, coverId, b).value)
    decreases |itemrefs|
  {
    if |itemrefs| > 0 {
      var idref := itemrefs[0].idref;
      TakeItemrefSound(rev, join, docUrl, idref, tocId, coverId, b);
      IndexItemrefsSound(rev, join, docUrl, itemrefs[1..], tocId, coverId, TakeItemref(rev, join, docUrl, idref, tocId, coverId, b));
    }
  }

  /** Every itemref can be taken in turn: its id is still left and its href resolves. */
  predicate Takeable(rev: Revision, join: Joiner, docUrl: Url, itemrefs: seq<Itemref>, remaining: map<Id, ResourceItem>)
  {
    && DistinctIdrefs(itemrefs)
    && forall i :: 0 <= i < |itemrefs| ==>
         itemrefs[i].idref in remaining && KeyOf(rev, join, docUrl, remaining[itemrefs[i].idref]).Some?
  }

  /** The itemref loop succeeds exactly when the itemrefs name distinct manifest items whose hrefs resolve. */
  lemma {:induction false} IndexItemrefsSucceeds(rev: Revision, join: Joiner, docUrl: Url, itemrefs: seq<Itemref>,
                                                 tocId: Option<Id>, coverId: Option<Id>, b: Builder)
    ensures IndexItemrefs(rev, join, docUrl, itemrefs, tocId, coverId, b).Success? <==> Takeable(rev, join, docUrl, itemrefs, b.remaining)
    decreases |itemrefs|
  {
    if |itemrefs| > 0 {
      var idref := itemrefs[0].idref;
      var rest := itemrefs[1..];
      if idref in b.remaining && KeyOf(rev, join, docUrl, b.remaining[idref]).Some? {
        var next := TakeItemref(rev, join, docUrl, idref, tocId, coverId, b);
        IndexItemrefsSucceeds(rev, join, docUrl, rest, tocId, coverId, next);
        if Takeable(rev, join, docUrl, itemrefs, b.remaining) {
          forall i | 0 <= i < |rest| ensures rest[i].idref in next.remaining {
            assert itemrefs[i + 1] == rest[i];
          }
        }
        if Takeable(rev, join, docUrl, rest, next.remaining) {
          forall i, j | 0 <= i < j < |itemrefs| ensures itemrefs[i].idref != itemrefs[j].idref {
            assert itemrefs[j] == rest[j - 1];
            if i > 0 { assert itemrefs[i] == rest[i - 1]; }
          }
          forall i | 0 <= i < |itemrefs| ensures itemrefs[i].idref in b.remaining {
            if i > 0 { assert itemrefs[i] == rest[i - 1]; }
          }
        }
      }
    }
  }

  /** After the itemref loop the i-th new resource is the manifest item of the i-th itemref. */
  lemma {:induction false} IndexItemrefsResources(rev: Revision, join: Joiner, docUrl: Url, itemrefs: seq<Itemref>,
                                                  tocId: Option<Id>, coverId: Option<Id>, b: Builder)
    requires IndexItemrefs(rev, join, docUrl, itemrefs, tocId, coverId, b).Success?
    ensures var r := IndexItemrefs(rev, join, docUrl, itemrefs, tocId, coverId, b).value;
      && |r.resources| == |b.resources| + |itemrefs|
      && r.resources[..|b.resources|] == b.resources
      && (forall i :: 0 <= i < |itemrefs| ==>
            itemrefs[i].idref in b.remaining && r.resources[|b.resources| + i] == b.remaining[itemrefs[i].idref])
    decreases |itemrefs|
  {
    if |itemrefs| > 0 {
      var idref := itemrefs[0].idref;
      var rest := itemrefs[1..];
      var next := TakeItemref(rev, join, docUrl, idref, tocId, coverId, b);
      IndexItemrefsResources(rev, join, docUrl, rest, tocId, coverId, next);
      var r := IndexItemrefs(rev, join, docUrl, itemrefs, tocId, coverId, b).value;
      var n := |b.resources|;
      assert r.resources[..n] == next.resources[..n];
      forall i | 0 <= i < |itemrefs|
        ensures itemrefs[i].idref in b.remaining && r.resources[n + i] == b.remaining[itemrefs[i].idref]
      {
        if i > 0 {
          assert rest[i - 1] == itemrefs[i];
        }
      }
    }
  }

  /**
   * After the itemref loop the reading order has grown by exactly the new
   * positions, and the items taken are no longer left in the manifest.
   */
  lemma {:induction false} IndexItemrefsSpine(rev: Revision, join: Joiner, docUrl: Url, itemrefs: seq<Itemref>,
                                              tocId: Option<Id>, coverId: Option<Id>, b: Builder)
    requires IndexItemrefs(rev, join, docUrl, itemrefs, tocId, coverId, b).Success?
    ensures var r := IndexItemrefs(rev, join, docUrl, itemrefs, tocId, coverId, b).value;
      && r.spine == b.spine + Range(|b.resources|, |itemrefs|)
      && r.remaining == b.remaining - IdrefSet(itemrefs)
    decreases |itemrefs|
  {
    if |itemrefs| == 0 {
      assert IdrefSet(itemrefs) == {};
    } else {
      var idref := itemrefs[0].idref;
      var rest := itemrefs[1..];
      var next := TakeItemref(rev, join, docUrl, idref, tocId, coverId, b);
      IndexItemrefsSpine(rev, join, docUrl, rest, tocId, coverId, next);
      var r := IndexItemrefs(rev, join, docUrl, itemrefs, tocId, coverId, b).value;
      assert r.spine == b.spine + Range(|b.resources|, |itemrefs|);
      assert IdrefSet(itemrefs) == {idref} + IdrefSet(rest) by {
        forall x | x in IdrefSet(itemrefs) ensures x in {idref} + IdrefSet(rest) {
          var i :| 0 <= i < |itemrefs| && itemrefs[i].idref == x;
          if i > 0 { assert rest[i - 1].idref == x; }
        }
        forall x | x in IdrefSet(rest) ensures x in IdrefSet(itemrefs) {
          var i :| 0 <= i < |rest| && rest[i].idref == x;
          assert itemrefs[i + 1].idref == x;
        }
      }
    }
  }

  /**
   * The legacy cover is recorded only by the itemref naming it: it is the
   * position of that itemref, and unchanged when no itemref names it.
   */
  lemma {:induction false} IndexItemrefsCover(rev: Revision, join: Joiner, docUrl: Url, itemrefs: seq<Itemref>,
                                              tocId: Option<Id>, coverId: Option<Id>, b: Builder)
    requires IndexItemrefs(rev, join, docUrl, itemrefs, tocId, coverId, b).Success?
    ensures var r := IndexItemrefs(rev, join, docUrl, itemrefs, tocId, coverId, b).value;
      && ((forall i :: 0 <= i < |itemrefs| ==> Some(itemrefs[i].idref) != coverId) ==> r.legacyCover == b.legacyCover)
      && (r.legacyCover != b.legacyCover ==>
            exists i :: 0 <= i < |itemrefs| && Some(itemrefs[i].idref) == coverId && r.legacyCover == Some(|b.resources| + i))
    decreases |itemrefs|
  {
    if |itemrefs| > 0 {
      var idref := itemrefs[0].idref;
      var rest := itemrefs[1..];
      var next := TakeItemref(rev, join, docUrl, idref, tocId, coverId, b);
      IndexItemrefsCover(rev, join, docUrl, rest, tocId, coverId, next);
      var r := IndexItemrefs(rev, join, docUrl, itemrefs, tocId, coverId, b).value;
      if r.legacyCover != b.legacyCover {
        if r.legacyCover != next.legacyCover {
          var i :| 0 <= i < |rest| && Some(rest[i].idref) == coverId && r.legacyCover == Some(|next.resources| + i);
          assert itemrefs[i + 1] == rest[i];
        }
      }
      if forall i :: 0 <= i < |itemrefs| ==> Some(itemrefs[i].idref) != coverId {
        forall i | 0 <= i < |rest| ensures Some(rest[i].idref) != coverId {
          assert rest[i] == itemrefs[i + 1];
        }
      }
    }
  }

  // ------------------------------------------------------------- leftovers

  /**
   * One round of the loop over the items no itemref named: the item joins
   * the resources and is indexed without a reading position. `inSpine`
   * says whether it also joins the reading order.
   */
  function TakeLeftover(rev: Revision, join: Joiner, docUrl: Url, id: Id, inSpine: bool, b: Builder): (r: Builder)
    requires id in b.remaining && KeyOf(rev, join, docUrl, b.remaining[id]).Some?
    ensures r.resources == b.resources + [b.remaining[id]]
    ensures r.spine == if inSpine then b.spine + [|b.resources|] else b.spine
    ensures r.remaining == b.remaining - {id}
    ensures r.legacyToc == b.legacyToc && r.legacyCover == b.legacyCover
    // Its URL now leads to the new resource, with no reading position, even when it joins the reading order.
    ensures r.indexes == b.indexes[KeyOf(rev, join, docUrl, b.remaining[id]).value := ResourceIndex(|b.resources|, None)]
  {
    var item := b.remaining[id];
    var ri := |b.resources|;
    Builder(
      b.resources + [item],
      if inSpine then b.spine + [ri] else b.spine,
      b.indexes[KeyOf(rev, join, docUrl, item).value := ResourceIndex(ri, None)],
      b.remaining - {id},
      b.legacyToc,
      b.legacyCover)
  }

  lemma TakeLeftoverSound(rev: Revision, join: Joiner, docUrl: Url, id: Id, inSpine: bool, b: Builder)
    requires Sound(rev, join, docUrl, b)
    requires id in b.remaining && KeyOf(rev, join, docUrl, b.remaining[id]).Some?
    ensures Sound(rev, join, docUrl, TakeLeftover(rev, join, docUrl, id, inSpine, b))
  {
    var r := TakeLeftover(rev, join, docUrl, id, inSpine, b);
    forall u | u in r.indexes
      ensures ValidIndex(r.indexes[u], r.resources, r.spine)
      ensures KeyOf(rev, join, docUrl, r.resources[r.indexes[u].ri]) == Some(u)
    {
      if u != KeyOf(rev, join, docUrl, b.remaining[id]).value {
        assert r.indexes[u] == b.indexes[u];
        assert r.resources[b.indexes[u].ri] == b.resources[b.indexes[u].ri];
      }
    }
  }

  /**
   * The loop over what is left of the manifest, in the map's iteration
   * order `order` (ids not left are skipped). In the modular revision an
   * href that does not resolve is an invalid href.
   */
  function IndexLeftovers(rev: Revision, join: Joiner, docUrl: Url, order: seq<Id>, inSpine: bool, b: Builder)
    : (r: Result<Builder, OpenError>)
    ensures r.Failure? ==> r.error == InvalidHref && rev == Modular
    decreases |order|
  {
    if |order| == 0 then Success(b)
    else
      var id := order[0];
      if id !in b.remaining then IndexLeftovers(rev, join, docUrl, order[1..], inSpine, b)
      else if KeyOf(rev, join, docUrl, b.remaining[id]).None? then Failure(InvalidHref)
      else IndexLeftovers(rev, join, docUrl, order[1..], inSpine, TakeLeftover(rev, join, docUrl, id, inSpine, b))
  }

  lemma {:induction false} IndexLeftoversSound(rev: Revision, join: Joiner, docUrl: Url, order: seq<Id>, inSpine: bool, b: Builder)
    requires Sound(rev, join, docUrl, b)
    requires IndexLeftovers(rev, join, docUrl, order, inSpine, b).Success?
    ensures Sound(rev, join, docUrl, IndexLeftovers(rev, join, docUrl, order, inSpine, b).value)
    decreases |order|
  {
    if |order| > 0 {
      var id := order[0];
      if id !in b.remaining {
        IndexLeftoversSound(rev, join, docUrl, order[1..], inSpine, b);
      } else {
        TakeLeftoverSound(rev, join, docUrl, id, inSpine, b);
        IndexLeftoversSound(rev, join, docUrl, order[1..], inSpine, TakeLeftover(rev, join, docUrl, id, inSpine, b));
      }
    }
  }

  /** The leftover loop fails exactly when some listed item still left has an href that does not resolve. */
  lemma {:induction false} IndexLeftoversSucceeds(rev: Revision, join: Joiner, docUrl: Url, order: seq<Id>, inSpine: bool, b: Builder)
    ensures IndexLeftovers(rev, join, docUrl, order, inSpine, b).Success? <==>
      forall i :: 0 <= i < |order| && order[i] in b.remaining ==> KeyOf(rev, join, docUrl, b.remaining[order[i]]).Some?
    decreases |order|
  {
    if |order| > 0 {
      var id := order[0];
      var rest := order[1..];
      var next := if id !in b.remaining || KeyOf(rev, join, docUrl, b.remaining[id]).None? then b
                  else TakeLeftover(rev, join, docUrl, id, inSpine, b);
      IndexLeftoversSucceeds(rev, join, docUrl, rest, inSpine, next);
      if id in b.remaining && KeyOf(rev, join, docUrl, b.remaining[id]).Some? {
        if forall i :: 0 <= i < |rest| && rest[i] in next.remaining ==> KeyOf(rev, join, docUrl, next.remaining[rest[i]]).Some? {
          forall i | 0 <= i < |order| && order[i] in b.remaining
            ensures KeyOf(rev, join, docUrl, b.remaining[order[i]]).Some?
          {
            if i > 0 && order[i] != id {
              assert rest[i - 1] == order[i];
            }
          }
        }
      } else if id !in b.remaining {
        if forall i :: 0 <= i < |rest| && rest[i] in b.remaining ==> KeyOf(rev, join, docUrl, b.remaining[rest[i]]).Some? {
          forall i | 0 <= i < |order| && order[i] in b.remaining
            ensures KeyOf(rev, join, docUrl, b.remaining[order[i]]).Some?
          {
            assert rest[i - 1] == order[i];
          }
        }
      }
    }
  }

  /**
   * The leftover loop appends resources only, keeps the legacy positions,
   * and extends the reading order by all the new positions or by none,
   * as `inSpine` says.
   */
  lemma {:induction false} IndexLeftoversLayout(rev: Revision, join: Joiner, docUrl: Url, order: seq<Id>, inSpine: bool, b: Builder)
    requires IndexLeftovers(rev, join, docUrl, order, inSpine, b).Success?
    ensures var r := IndexLeftovers(rev, join, docUrl, order, inSpine, b).value;
      && |b.resources| <= |r.resources|
      && r.resources[..|b.resources|] == b.resources
      && r.legacyToc == b.legacyToc && r.legacyCover == b.legacyCover
      && r.spine == if inSpine then b.spine + Range(|b.resources|, |r.resources| - |b.resources|) else b.spine
    decreases |order|
  {
    if |order| > 0 {
      var id := order[0];
      if id !in b.remaining {
        IndexLeftoversLayout(rev, join, docUrl, order[1..], inSpine, b);
      } else {
        var next := TakeLeftover(rev, join, docUrl, id, inSpine, b);
        IndexLeftoversLayout(rev, join, docUrl, order[1..], inSpine, next);
        var r := IndexLeftovers(rev, join, docUrl, order, inSpine, b).value;
        assert r.resources[..|b.resources|] == next.resources[..|b.resources|];
        if inSpine {
          assert r.spine == b.spine + Range(|b.resources|, |r.resources| - |b.resources|);
        }
      }
    }
  }

  /** Every item still left whose id the iteration order lists becomes a resource. */
  lemma {:induction false} IndexLeftoversKeepsItems(rev: Revision, join: Joiner, docUrl: Url, order: seq<Id>, inSpine: bool, b: Builder)
    requires IndexLeftovers(rev, join, docUrl, order, inSpine, b).Success?
    ensures var r := IndexLeftovers(rev, join, docUrl, order, inSpine, b).value;
      forall id :: id in b.remaining && id in order ==> b.remaining[id] in r.resources
    decreases |order|
  {
    if |order| > 0 {
      var id0 := order[0];
      var rest := order[1..];
      var r := IndexLeftovers(rev, join, docUrl, order, inSpine, b).value;
      var next := if id0 !in b.remaining then b else TakeLeftover(rev, join, docUrl, id0, inSpine, b);
      IndexLeftoversKeepsItems(rev, join, docUrl, rest, inSpine, next);
      IndexLeftoversLayout(rev, join, docUrl, rest, inSpine, next);
      forall id | id in b.remaining && id in order ensures b.remaining[id] in r.resources {
        if id == id0 {
          assert r.resources[|b.resources|] == b.remaining[id];
        } else {
          assert id in rest;
        }
      }
    }
  }

  // --------------------------------------------------------------- indexes

  /**
   * Every resource's URL is indexed, at that resource or at a later one:
   * a later resource with the same URL overwrites the entry.
   */
  predicate KeysIndexed(rev: Revision, join: Joiner, docUrl: Url, b: Builder)
  {
    forall i :: 0 <= i < |b.resources| ==>
      KeyOf(rev, join, docUrl, b.resources[i]).Some? && KeyOf(rev, join, docUrl, b.resources[i]).value in b.indexes
      && i <= b.indexes[KeyOf(rev, join, docUrl, b.resources[i]).value].ri
  }

  /** The entries for the first `n` resources carry their own position as reading position; the others carry none. */
  predicate PositionsIndexed(b: Builder, n: nat)
  {
    forall u :: u in b.indexes ==> b.indexes[u].si == if b.indexes[u].ri < n then Some(b.indexes[u].ri) else None
  }

  lemma TakeItemrefIndexes(rev: Revision, join: Joiner, docUrl: Url, idref: Id, tocId: Option<Id>, coverId: Option<Id>, b: Builder)
    requires Sound(rev, join, docUrl, b) && |b.spine| == |b.resources|
    requires KeysIndexed(rev, join, docUrl, b) && PositionsIndexed(b, |b.resources|)
    requires idref in b.remaining && KeyOf(rev, join, docUrl, b.remaining[idref]).Some?
    ensures var r := TakeItemref(rev, join, docUrl, idref, tocId, coverId, b);
      KeysIndexed(rev, join, docUrl, r) && PositionsIndexed(r, |r.resources|)
  {
    var r := TakeItemref(rev, join, docUrl, idref, tocId, coverId, b);
    forall i | 0 <= i < |b.resources| ensures r.resources[i] == b.resources[i] {}
  }

  /** The itemref loop indexes every resource it adds, each at its own reading position. */
  lemma {:induction false} IndexItemrefsIndexes(rev: Revision, join: Joiner, docUrl: Url, itemrefs: seq<Itemref>,
                                                tocId: Option<Id>, coverId: Option<Id>, b: Builder)
    requires Sound(rev, join, docUrl, b) && |b.spine| == |b.resources|
    requires KeysIndexed(rev, join, docUrl, b) && PositionsIndexed(b, |b.resources|)
    requires IndexItemrefs(rev, join, docUrl, itemrefs, tocId, coverId, b).Success?
    ensures var r := IndexItemrefs(rev, join, docUrl, itemrefs, tocId, coverId, b).value;
      KeysIndexed(rev, join, docUrl, r) && PositionsIndexed(r, |r.resources|)
    decreases |itemrefs|
  {
    if |itemrefs| > 0 {
      var idref := itemrefs[0].idref;
      TakeItemrefSound(rev, join, docUrl, idref, tocId, coverId, b);
      TakeItemrefIndexes(rev, join, docUrl, idref, tocId, coverId, b);
      IndexItemrefsIndexes(rev, join, docUrl, itemrefs[1..], tocId, coverId, TakeItemref(rev, join, docUrl, idref, tocId, coverId, b));
    }
  }

  lemma TakeLeftoverIndexes(rev: Revision, join: Joiner, docUrl: Url, id: Id, inSpine: bool, n: nat, b: Builder)
    requires n <= |b.resources| && KeysIndexed(rev, join, docUrl, b) && PositionsIndexed(b, n)
    requires id in b.remaining && KeyOf(rev, join, docUrl, b.remaining[id]).Some?
    ensures var r := TakeLeftover(rev, join, docUrl, id, inSpine, b);
      KeysIndexed(rev, join, docUrl, r) && PositionsIndexed(r, n)
  {
    var r := TakeLeftover(rev, join, docUrl, id, inSpine, b);
    forall i | 0 <= i < |b.resources| ensures r.resources[i] == b.resources[i] {}
  }

  /** The leftover loop indexes every resource it adds, with no reading position. */
  lemma {:induction false} IndexLeftoversIndexes(rev: Revision, join: Joiner, docUrl: Url, order: seq<Id>, inSpine: bool, n: nat, b: Builder)
    requires n <= |b.resources| && KeysIndexed(rev, join, docUrl, b) && PositionsIndexed(b, n)
    requires IndexLeftovers(rev, join, docUrl, order, inSpine, b).Success?
    ensures var r := IndexLeftovers(rev, join, docUrl, order, inSpine, b).value;
      KeysIndexed(rev, join, docUrl, r) && PositionsIndexed(r, n)
    decreases |order|
  {
    if |order| > 0 {
      var id := order[0];
      if id !in b.remaining {
        IndexLeftoversIndexes(rev, join, docUrl, order[1..], inSpine, n, b);
      } else {
        TakeLeftoverIndexes(rev, join, docUrl, id, inSpine, n, b);
        IndexLeftoversIndexes(rev, join, docUrl, order[1..], inSpine, n, TakeLeftover(rev, join, docUrl, id, inSpine, b));
      }
    }
  }

  // ---------------------------------------------------------------- counts

  lemma RemoveOne(m: map<Id, ResourceItem>, k: Id)
    requires k in m
    ensures |m - {k}| == |m| - 1
  {
    assert (m - {k}).Keys == m.Keys - {k};
  }

  /** Every item the itemref loop takes leaves the manifest and joins the resources. */
  lemma {:induction false} IndexItemrefsCount(rev: Revision, join: Joiner, docUrl: Url, itemrefs: seq<Itemref>,
                                               tocId: Option<Id>, coverId: Option<Id>, b: Builder)
    requires IndexItemrefs(rev, join, docUrl, itemrefs, tocId, coverId, b).Success?
    ensures var r := IndexItemrefs(rev, join, docUrl, itemrefs, tocId, coverId, b).value;
      |r.resources| + |r.remaining| == |b.resources| + |b.remaining|
    decreases |itemrefs|
  {
    if |itemrefs| > 0 {
      var idref := itemrefs[0].idref;
      RemoveOne(b.remaining, idref);
      IndexItemrefsCount(rev, join, docUrl, itemrefs[1..], tocId, coverId, TakeItemref(rev, join, docUrl, idref, tocId, coverId, b));
    }
  }

  /** The leftover loop moves every listed item still left into the resources. */
  lemma {:induction false} IndexLeftoversCount(rev: Revision, join: Joiner, docUrl: Url, order: seq<Id>, inSpine: bool, b: Builder)
    requires IndexLeftovers(rev, join, docUrl, order, inSpine, b).Success?
    ensures var r := IndexLeftovers(rev, join, docUrl, order, inSpine, b).value;
      && |r.resources| + |r.remaining| == |b.resources| + |b.remaining|
      && (forall id :: id in order ==> id !in r.remaining)
      && r.remaining.Keys <= b.remaining.Keys
    decreases |order|
  {
    if |order| > 0 {
      var id := order[0];
      var next := if id !in b.remaining then b else TakeLeftover(rev, join, docUrl, id, inSpine, b);
      if id in b.remaining {
        RemoveOne(b.remaining, id);
      }
      IndexLeftoversCount(rev, join, docUrl, order[1..], inSpine, next);
      var r := IndexLeftovers(rev, join, docUrl, order, inSpine, b).value;
      forall x | x in order ensures x !in r.remaining {
        if x != id {
          assert x in order[1..];
        }
      }
    }
  }

  // ----------------------------------------------------------------- build

  /** The id the first `cover` metadata item names (EPUB 2's `<meta name="cover" content="id"/>`). */
  function CoverId(metadata: seq<MetadataItem>): (r: Option<Id>)
    ensures r.Some? <==> exists i :: 0 <= i < |metadata| && metadata[i].property == "cover"
    ensures r.Some? ==> exists i :: (0 <= i < |metadata| && metadata[i].property == "cover" && metadata[i].value == r.value
      && forall j :: 0 <= j < i ==> metadata[j].property != "cover")
  {
    match Find(metadata, (m: MetadataItem) => m.property == "cover")
    case None => None
    case Some(m) => Some(m.value)
  }

  /** The builder before the first itemref: nothing indexed, the whole manifest left. */
  function StartBuilder(pkg: Package): Builder
  {
    Builder([], [], map[], pkg.manifest, None, None)
  }

  /**
   * Builds the resource indexes of `Epub::open` from a parsed package:
   * first the itemrefs in reading order, then every other manifest item.
   * `inSpine` says whether those other items are appended to the reading
   * order too.
   */
  function BuildBook(rev: Revision, join: Joiner, docUrl: Url, pkg: Package, order: seq<Id>, inSpine: bool): (r: Result<Epub, OpenError>)
    requires ListsEvery(order, pkg.manifest)
    ensures r.Success? ==> Valid(r.value)
    ensures r.Success? ==> r.value.version == pkg.version && r.value.metadata == pkg.metadata
    ensures r.Success? ==> forall u :: u in r.value.indexes ==> KeyOf(rev, join, docUrl, r.value.resources[r.value.indexes[u].ri]) == Some(u)
    ensures r.Failure? ==> r.error == PackageDoc(SpineError) || (r.error == InvalidHref && rev == Modular)
  {
    var b0 := StartBuilder(pkg);
    match IndexItemrefs(rev, join, docUrl, pkg.spine.itemrefs, pkg.spine.toc, CoverId(pkg.metadata), b0)
    case Failure(e) => Failure(e)
    case Success(b1) =>
      IndexItemrefsSound(rev, join, docUrl, pkg.spine.itemrefs, pkg.spine.toc, CoverId(pkg.metadata), b0);
      match IndexLeftovers(rev, join, docUrl, order, inSpine, b1)
      case Failure(e) => Failure(e)
      case Success(b2) =>
        IndexLeftoversSound(rev, join, docUrl, order, inSpine, b1);
        Success(Epub(pkg.version, pkg.metadata, b2.resources, b2.spine, b2.indexes, b2.legacyToc, b2.legacyCover))
  }

  /** The resource indexes as `Epub::open` builds them: the other items join the reading order too. */
  function BuildAsWritten(rev: Revision, join: Joiner, docUrl: Url, pkg: Package, order: seq<Id>): Result<Epub, OpenError>
    requires ListsEvery(order, pkg.manifest)
  {
    BuildBook(rev, join, docUrl, pkg, order, true)
  }

  /** The resource indexes with the reading order made of the itemrefs alone. */
  function Build(rev: Revision, join: Joiner, docUrl: Url, pkg: Package, order: seq<Id>): Result<Epub, OpenError>
    requires ListsEvery(order, pkg.manifest)
  {
    BuildBook(rev, join, docUrl, pkg, order, false)
  }

  /** The itemref loop's result, for stating facts about a build. */
  function AfterItemrefs(rev: Revision, join: Joiner, docUrl: Url, pkg: Package): Result<Builder, OpenError>
  {
    IndexItemrefs(rev, join, docUrl, pkg.spine.itemrefs, pkg.spine.toc, CoverId(pkg.metadata), StartBuilder(pkg))
  }

  /**
   * Opening succeeds exactly when the itemrefs name distinct manifest
   * items, and every href to be indexed resolves.
   */
  lemma BuildSucceeds(rev: Revision, join: Joiner, docUrl: Url, pkg: Package, order: seq<Id>, inSpine: bool)
    requires ListsEvery(order, pkg.manifest)
    ensures BuildBook(rev, join, docUrl, pkg, order, inSpine).Success? <==>
      && Takeable(rev, join, docUrl, pkg.spine.itemrefs, pkg.manifest)
      && forall id :: id in pkg.manifest && id !in IdrefSet(pkg.spine.itemrefs) ==>
           KeyOf(rev, join, docUrl, pkg.manifest[id]).Some?
  {
    var itemrefs := pkg.spine.itemrefs;
    IndexItemrefsSucceeds(rev, join, docUrl, itemrefs, pkg.spine.toc, CoverId(pkg.metadata), StartBuilder(pkg));
    var r1 := AfterItemrefs(rev, join, docUrl, pkg);
    if r1.Success? {
      IndexItemrefsSpine(rev, join, docUrl, itemrefs, pkg.spine.toc, CoverId(pkg.metadata), StartBuilder(pkg));
      IndexLeftoversSucceeds(rev, join, docUrl, order, inSpine, r1.value);
      var rem := r1.value.remaining;
      if forall i :: 0 <= i < |order| && order[i] in rem ==> KeyOf(rev, join, docUrl, rem[order[i]]).Some? {
        forall id | id in pkg.manifest && id !in IdrefSet(itemrefs) ensures KeyOf(rev, join, docUrl, pkg.manifest[id]).Some? {
          var i :| 0 <= i < |order| && order[i] == id;
        }
      }
    }
  }

  /** With the reading order made of the itemrefs alone, position i of the reading order is the item of itemref i. */
  lemma SpineIsItemrefs(rev: Revision, join: Joiner, docUrl: Url, pkg: Package, order: seq<Id>)
    requires ListsEvery(order, pkg.manifest) && Build(rev, join, docUrl, pkg, order).Success?
    ensures var e := Build(rev, join, docUrl, pkg, order).value;
      && |e.spine| == |pkg.spine.itemrefs|
      && forall i :: 0 <= i < |e.spine| ==>
           (e.spine[i] == i
            && pkg.spine.itemrefs[i].idref in pkg.manifest
            && e.resources[i] == pkg.manifest[pkg.spine.itemrefs[i].idref])
  {
    var itemrefs := pkg.spine.itemrefs;
    var b0 := StartBuilder(pkg);
    var b1 := AfterItemrefs(rev, join, docUrl, pkg).value;
    IndexItemrefsResources(rev, join, docUrl, itemrefs, pkg.spine.toc, CoverId(pkg.metadata), b0);
    IndexItemrefsSpine(rev, join, docUrl, itemrefs, pkg.spine.toc, CoverId(pkg.metadata), b0);
    IndexLeftoversLayout(rev, join, docUrl, order, false, b1);
    var e := Build(rev, join, docUrl, pkg, order).value;
    forall i | 0 <= i < |itemrefs| ensures e.resources[i] == b1.resources[i] {
      assert e.resources[..|b1.resources|] == b1.resources;
    }
  }

  /**
   * In either assembly the reading order starts with the itemrefs: position
   * i is the resource of itemref i, which is that itemref's manifest item.
   */
  lemma ReadingOrderStartsWithItemrefs(rev: Revision, join: Joiner, docUrl: Url, pkg: Package, order: seq<Id>, inSpine: bool)
    requires ListsEvery(order, pkg.manifest) && BuildBook(rev, join, docUrl, pkg, order, inSpine).Success?
    ensures var e := BuildBook(rev, join, docUrl, pkg, order, inSpine).value;
      && |pkg.spine.itemrefs| <= |e.spine|
      && forall i :: 0 <= i < |pkg.spine.itemrefs| ==>
           (e.spine[i] == i
            && pkg.spine.itemrefs[i].idref in pkg.manifest
            && e.resources[i] == pkg.manifest[pkg.spine.itemrefs[i].idref])
  {
    var itemrefs := pkg.spine.itemrefs;
    var b0 := StartBuilder(pkg);
    var b1 := AfterItemrefs(rev, join, docUrl, pkg).value;
    IndexItemrefsResources(rev, join, docUrl, itemrefs, pkg.spine.toc, CoverId(pkg.metadata), b0);
    IndexItemrefsSpine(rev, join, docUrl, itemrefs, pkg.spine.toc, CoverId(pkg.metadata), b0);
    IndexLeftoversLayout(rev, join, docUrl, order, inSpine, b1);
    var e := BuildBook(rev, join, docUrl, pkg, order, inSpine).value;
    forall i | 0 <= i < |itemrefs| ensures e.spine[i] == i && e.resources[i] == b1.resources[i] {
      assert e.resources[..|b1.resources|] == b1.resources;
    }
  }

  /**
   * The URL index of a built book: every resource's URL leads to that
   * resource or to a later one with the same URL (the last one wins), and
   * an entry has a reading position exactly when it leads to an itemref's
   * resource, whose position it then is.
   */
  lemma BookIndexes(rev: Revision, join: Joiner, docUrl: Url, pkg: Package, order: seq<Id>, inSpine: bool)
    requires ListsEvery(order, pkg.manifest) && BuildBook(rev, join, docUrl, pkg, order, inSpine).Success?
    ensures var e := BuildBook(rev, join, docUrl, pkg, order, inSpine).value;
      && (forall i :: 0 <= i < |e.resources| ==>
            KeyOf(rev, join, docUrl, e.resources[i]).Some? && KeyOf(rev, join, docUrl, e.resources[i]).value in e.indexes
            && i <= e.indexes[KeyOf(rev, join, docUrl, e.resources[i]).value].ri)
      && (forall u :: u in e.indexes ==>
            e.indexes[u].si == if e.indexes[u].ri < |pkg.spine.itemrefs| then Some(e.indexes[u].ri) else None)
      && (forall u, j :: u in e.indexes && e.indexes[u].ri < j < |e.resources| ==> KeyOf(rev, join, docUrl, e.resources[j]) != Some(u))
  {
    var itemrefs := pkg.spine.itemrefs;
    var b0 := StartBuilder(pkg);
    var b1 := AfterItemrefs(rev, join, docUrl, pkg).value;
    IndexItemrefsResources(rev, join, docUrl, itemrefs, pkg.spine.toc, CoverId(pkg.metadata), b0);
    IndexItemrefsSpine(rev, join, docUrl, itemrefs, pkg.spine.toc, CoverId(pkg.metadata), b0);
    IndexItemrefsSound(rev, join, docUrl, itemrefs, pkg.spine.toc, CoverId(pkg.metadata), b0);
    IndexItemrefsIndexes(rev, join, docUrl, itemrefs, pkg.spine.toc, CoverId(pkg.metadata), b0);
    IndexLeftoversIndexes(rev, join, docUrl, order, inSpine, |itemrefs|, b1);
    var e := BuildBook(rev, join, docUrl, pkg, order, inSpine).value;
    forall u, j | u in e.indexes && e.indexes[u].ri < j < |e.resources|
      ensures KeyOf(rev, join, docUrl, e.resources[j]) != Some(u)
    {
      assert j <= e.indexes[KeyOf(rev, join, docUrl, e.resources[j]).value].ri;
    }
  }

  /**
   * The resources are the manifest's items: one resource per manifest
   * item, and every item among them. (Together with the reading order
   * starting with the itemrefs, this pins the layout: itemref items
   * first, in reading order, then every other item.)
   */
  lemma BookResourcesAreManifest(rev: Revision, join: Joiner, docUrl: Url, pkg: Package, order: seq<Id>, inSpine: bool)
    requires ListsEvery(order, pkg.manifest) && BuildBook(rev, join, docUrl, pkg, order, inSpine).Success?
    ensures var e := BuildBook(rev, join, docUrl, pkg, order, inSpine).value;
      && |e.resources| == |pkg.manifest|
      && forall id :: id in pkg.manifest ==> pkg.manifest[id] in e.resources
  {
    var itemrefs := pkg.spine.itemrefs;
    var b0 := StartBuilder(pkg);
    var b1 := AfterItemrefs(rev, join, docUrl, pkg).value;
    IndexItemrefsCount(rev, join, docUrl, itemrefs, pkg.spine.toc, CoverId(pkg.metadata), b0);
    IndexItemrefsSpine(rev, join, docUrl, itemrefs, pkg.spine.toc, CoverId(pkg.metadata), b0);
    IndexLeftoversCount(rev, join, docUrl, order, inSpine, b1);
    BookHasEveryItem(rev, join, docUrl, pkg, order, inSpine);
    var r := IndexLeftovers(rev, join, docUrl, order, inSpine, b1).value;
    forall id | id in pkg.manifest ensures id !in r.remaining {
      assert id in order;
    }
    assert r.remaining.Keys == {};
  }

  /** The leftover loop's choices do not depend on the reading order so far. */
  lemma {:induction false} LeftoversIgnoreSpine(rev: Revision, join: Joiner, docUrl: Url, order: seq<Id>, w: Builder, c: Builder)
    requires c == w.(spine := c.spine)
    ensures IndexLeftovers(rev, join, docUrl, order, true, w).Success? <==> IndexLeftovers(rev, join, docUrl, order, false, c).Success?
    ensures IndexLeftovers(rev, join, docUrl, order, false, c).Success? ==>
      var w' := IndexLeftovers(rev, join, docUrl, order, true, w).value;
      var c' := IndexLeftovers(rev, join, docUrl, order, false, c).value;
      c' == w'.(spine := c'.spine)
    decreases |order|
  {
    if |order| > 0 {
      var id := order[0];
      if id !in w.remaining {
        LeftoversIgnoreSpine(rev, join, docUrl, order[1..], w, c);
      } else if KeyOf(rev, join, docUrl, w.remaining[id]).Some? {
        var w1 := TakeLeftover(rev, join, docUrl, id, true, w);
        var c1 := TakeLeftover(rev, join, docUrl, id, false, c);
        LeftoversIgnoreSpine(rev, join, docUrl, order[1..], w1, c1);
      }
    }
  }

  /**
   * The assembly as written and the corrected one succeed together and
   * build the same book, except that the corrected reading order is the
   * as-written one cut after the itemrefs.
   */
  lemma AssembliesAgree(rev: Revision, join: Joiner, docUrl: Url, pkg: Package, order: seq<Id>)
    requires ListsEvery(order, pkg.manifest)
    ensures BuildAsWritten(rev, join, docUrl, pkg, order).Success? <==> Build(rev, join, docUrl, pkg, order).Success?
    ensures BuildAsWritten(rev, join, docUrl, pkg, order).Failure? ==> Build(rev, join, docUrl, pkg, order) == BuildAsWritten(rev, join, docUrl, pkg, order)
    ensures Build(rev, join, docUrl, pkg, order).Success? ==>
      var w := BuildAsWritten(rev, join, docUrl, pkg, order).value;
      var c := Build(rev, join, docUrl, pkg, order).value;
      && c == w.(spine := c.spine)
      && |pkg.spine.itemrefs| <= |w.spine|
      && c.spine == w.spine[..|pkg.spine.itemrefs|]
  {
    BuildSucceeds(rev, join, docUrl, pkg, order, true);
    BuildSucceeds(rev, join, docUrl, pkg, order, false);
    if Build(rev, join, docUrl, pkg, order).Success? {
      var b1 := AfterItemrefs(rev, join, docUrl, pkg).value;
      LeftoversIgnoreSpine(rev, join, docUrl, order, b1, b1);
      SpineIsItemrefs(rev, join, docUrl, pkg, order);
      ReadingOrderStartsWithItemrefs(rev, join, docUrl, pkg, order, true);
      var w := BuildAsWritten(rev, join, docUrl, pkg, order).value;
      var c := Build(rev, join, docUrl, pkg, order).value;
      assert c.spine == w.spine[..|pkg.spine.itemrefs|];
    }
  }

  /** As written, every resource is in the reading order: the itemrefs' items first, then all the others. */
  lemma AsWrittenSpineHasEveryResource(rev: Revision, join: Joiner, docUrl: Url, pkg: Package, order: seq<Id>)
    requires ListsEvery(order, pkg.manifest) && BuildAsWritten(rev, join, docUrl, pkg, order).Success?
    ensures var e := BuildAsWritten(rev, join, docUrl, pkg, order).value;
      e.spine == Range(0, |e.resources|)
  {
    var itemrefs := pkg.spine.itemrefs;
    var b0 := StartBuilder(pkg);
    var b1 := AfterItemrefs(rev, join, docUrl, pkg).value;
    IndexItemrefsResources(rev, join, docUrl, itemrefs, pkg.spine.toc, CoverId(pkg.metadata), b0);
    IndexItemrefsSpine(rev, join, docUrl, itemrefs, pkg.spine.toc, CoverId(pkg.metadata), b0);
    IndexLeftoversLayout(rev, join, docUrl, order, true, b1);
  }

  /** When the iteration order lists every manifest id, every manifest item becomes a resource. */
  lemma BookHasEveryItem(rev: Revision, join: Joiner, docUrl: Url, pkg: Package, order: seq<Id>, inSpine: bool)
    requires ListsEvery(order, pkg.manifest) && BuildBook(rev, join, docUrl, pkg, order, inSpine).Success?
    ensures var e := BuildBook(rev, join, docUrl, pkg, order, inSpine).value;
      forall id :: id in pkg.manifest ==> pkg.manifest[id] in e.resources
  {
    var itemrefs := pkg.spine.itemrefs;
    var b0 := StartBuilder(pkg);
    var b1 := AfterItemrefs(rev, join, docUrl, pkg).value;
    IndexItemrefsResources(rev, join, docUrl, itemrefs, pkg.spine.toc, CoverId(pkg.metadata), b0);
    IndexItemrefsSpine(rev, join, docUrl, itemrefs, pkg.spine.toc, CoverId(pkg.metadata), b0);
    IndexLeftoversLayout(rev, join, docUrl, order, inSpine, b1);
    IndexLeftoversKeepsItems(rev, join, docUrl, order, inSpine, b1);
    var e := BuildBook(rev, join, docUrl, pkg, order, inSpine).value;
    forall id | id in pkg.manifest ensures pkg.manifest[id] in e.resources {
      if id in IdrefSet(itemrefs) {
        var i :| 0 <= i < |itemrefs| && itemrefs[i].idref == id;
        assert e.resources[..|b1.resources|] == b1.resources;
        assert e.resources[i] == b1.resources[i];
      } else {
        assert id in b1.remaining;
      }
    }
  }

  /**
   * The legacy cover is the resource of the itemref naming the `cover`
   * metadata value, and there is none when no itemref names it: an item
   * outside the reading order, such as an image, is never the legacy cover.
   */
  lemma LegacyCoverOnlyFromSpine(rev: Revision, join: Joiner, docUrl: Url, pkg: Package, order: seq<Id>, inSpine: bool)
    requires ListsEvery(order, pkg.manifest) && BuildBook(rev, join, docUrl, pkg, order, inSpine).Success?
    ensures var e := BuildBook(rev, join, docUrl, pkg, order, inSpine).value;
      && (e.legacyCover.Some? ==>
            var i := e.legacyCover.value;
            && i < |pkg.spine.itemrefs|
            && CoverId(pkg.metadata) == Some(pkg.spine.itemrefs[i].idref)
            && pkg.spine.itemrefs[i].idref in pkg.manifest
            && e.resources[i] == pkg.manifest[pkg.spine.itemrefs[i].idref])
      && ((forall i :: 0 <= i < |pkg.spine.itemrefs| ==> Some(pkg.spine.itemrefs[i].idref) != CoverId(pkg.metadata)) ==>
            e.legacyCover.None?)
  {
    var itemrefs := pkg.spine.itemrefs;
    var b0 := StartBuilder(pkg);
    var b1 := AfterItemrefs(rev, join, docUrl, pkg).value;
    IndexItemrefsResources(rev, join, docUrl, itemrefs, pkg.spine.toc, CoverId(pkg.metadata), b0);
    IndexItemrefsCover(rev, join, docUrl, itemrefs, pkg.spine.toc, CoverId(pkg.metadata), b0);
    IndexLeftoversLayout(rev, join, docUrl, order, inSpine, b1);
    var e := BuildBook(rev, join, docUrl, pkg, order, inSpine).value;
    if e.legacyCover.Some? {
      var i := e.legacyCover.value;
      assert e.resources[..|b1.resources|] == b1.resources;
      assert e.resources[i] == b1.resources[i];
    }
  }
}
