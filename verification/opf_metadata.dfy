/**
 * The `<metadata>` section of the package document: Dublin Core elements,
 * EPUB 3 `<meta property>` primary expressions and `refines`
 * subexpressions, EPUB 2 OPF-namespaced attributes and XHTML 1.1 style
 * `<meta name content/>`. Refinements are collected apart and attached to
 * their item once the section is read.
 */
module OpfMetadata {
  import opened Wrappers
  import opened XmlEvents
  import opened Opf

  /** Which value the next text event completes. */
  datatype Pending = NoPending | PendingItem | PendingRefinement(target: Id)

  datatype MetaState = MetaState(items: seq<MetadataItem>, refs: map<Id, seq<Refinement>>, pending: Pending)

  /** A pending value always has the element it completes. */
  predicate Consistent(s: MetaState)
  {
    && (s.pending == PendingItem ==> |s.items| > 0)
    && (s.pending.PendingRefinement? ==> s.pending.target in s.refs && |s.refs[s.pending.target]| > 0)
  }

  const Initial := MetaState([], map[], NoPending)

  /** The text of a value: unescaped in the modular revision, as written in the single-file one. */
  function TextValue(rev: Revision, raw: string, unescaped: Option<string>): (r: Result<string, XmlError>)
    ensures rev == SingleFile ==> r == Success(raw)
    ensures rev == Modular ==> (r.Success? <==> unescaped.Some?) && (r.Success? ==> r.value == unescaped.value)
    ensures r.Failure? ==> r.error == XmlMalformed
  {
    if rev == SingleFile then Success(raw)
    else if unescaped.None? then Failure(XmlMalformed)
    else Success(unescaped.value)
  }

  /** A text event completes the pending value, and nothing is pending afterwards. */
  function FillPending(s: MetaState, value: string): (r: MetaState)
    requires Consistent(s) && !s.pending.NoPending?
    ensures r.pending == NoPending && Consistent(r)
    ensures s.pending == PendingItem ==>
      && r.refs == s.refs
      && |r.items| == |s.items|
      && r.items[..|r.items| - 1] == s.items[..|s.items| - 1]
      && r.items[|r.items| - 1] == s.items[|s.items| - 1].(value := value)
    ensures s.pending.PendingRefinement? ==>
      var t := s.pending.target;
      && r.items == s.items
      && r.refs.Keys == s.refs.Keys
      && (forall k :: k in s.refs && k != t ==> r.refs[k] == s.refs[k])
      && |r.refs[t]| == |s.refs[t]|
      && r.refs[t][..|r.refs[t]| - 1] == s.refs[t][..|s.refs[t]| - 1]
      && r.refs[t][|r.refs[t]| - 1] == s.refs[t][|s.refs[t]| - 1].(value := value)
  {
    match s.pending
    case PendingItem =>
      var n := |s.items| - 1;
      MetaState(s.items[..n] + [s.items[n].(value := value)], s.refs, NoPending)
    case PendingRefinement(t) =>
      var rs := s.refs[t];
      var n := |rs| - 1;
      MetaState(s.items, s.refs[t := rs[..n] + [rs[n].(value := value)]], NoPending)
  }

  /** What a Dublin Core start tag's attributes contribute. */
  datatype DcAttrs = DcAttrs(id: Option<Id>, lang: Option<string>, refined: seq<Refinement>)

  /** The value of an attribute that must decode. */
  function Decoded(a: Attr): (r: Result<string, XmlError>)
    ensures r.Success? <==> a.decoded.Some?
    ensures r.Success? ==> r.value == a.decoded.value
    ensures r.Failure? ==> r.error == XmlMalformed
  {
    if a.decoded.Some? then Success(a.decoded.value) else Failure(XmlMalformed)
  }

  /** An attribute that names an EPUB 2 refinement of a Dublin Core element. */
  predicate IsOpfAttribute(e: AttrEntry)
  {
    e.Valid? && LocalName(e.attr.key) != "id" && LocalName(e.attr.key) != "lang" && e.attr.ns == Some(OpfNamespace)
  }

  /** The last well-formed attribute with this local name, if any. */
  function LastLocal(attrs: seq<AttrEntry>, local: string): Option<Attr>
    decreases |attrs|
  {
    if |attrs| == 0 then None
    else Shadow(LastLocal(attrs[1..], local), if HasLocal(attrs[0], local) then Some(attrs[0].attr) else None)
  }

  predicate HasLocal(e: AttrEntry, local: string)
  {
    e.Valid? && LocalName(e.attr.key) == local
  }

  /** `LastLocal` finds the attribute at the last position with that local name, and nothing when no position has it. */
  lemma {:induction false} LastLocalIsLast(attrs: seq<AttrEntry>, local: string)
    ensures LastLocal(attrs, local).None? <==> forall i :: 0 <= i < |attrs| ==> !HasLocal(attrs[i], local)
    ensures LastLocal(attrs, local).Some? ==>
      exists i :: 0 <= i < |attrs| && attrs[i] == Valid(LastLocal(attrs, local).value) && HasLocal(attrs[i], local)
                  && forall j :: i < j < |attrs| ==> !HasLocal(attrs[j], local)
    decreases |attrs|
  {
    if |attrs| > 0 {
      var rest := attrs[1..];
      LastLocalIsLast(rest, local);
      assert forall i :: 0 < i < |attrs| ==> attrs[i] == rest[i - 1];
      if LastLocal(rest, local).Some? {
        var k :| 0 <= k < |rest| && rest[k] == Valid(LastLocal(rest, local).value) && HasLocal(rest[k], local)
                 && forall j :: k < j < |rest| ==> !HasLocal(rest[j], local);
        assert attrs[k + 1] == rest[k];
      } else if HasLocal(attrs[0], local) {
        assert attrs[0] == Valid(LastLocal(attrs, local).value);
      }
    }
  }

  /** A Dublin Core element's id: its last `id` attribute, raw in the modular revision and decoded in the single-file one. */
  function DcId(rev: Revision, attrs: seq<AttrEntry>): Option<Id>
  {
    match LastLocal(attrs, "id")
    case None => None
    case Some(a) => if rev == Modular then Some(a.raw) else a.decoded
  }

  /** A Dublin Core element's language: its last `lang` attribute, decoded. */
  function DcLang(attrs: seq<AttrEntry>): Option<string>
  {
    match LastLocal(attrs, "lang")
    case None => None
    case Some(a) => a.decoded
  }

  /** The attributes of a Dublin Core element whose value must decode. */
  predicate NeedsDecoding(rev: Revision, legacy: bool, e: AttrEntry)
  {
    e.Valid? && ((LocalName(e.attr.key) == "id" && rev == SingleFile) || LocalName(e.attr.key) == "lang" || (legacy && IsOpfAttribute(e)))
  }

  /** Every OPF-namespaced attribute as a refinement named by its local name, in attribute order. */
  function OpfRefinements(attrs: seq<AttrEntry>): (r: seq<Refinement>)
    ensures |r| <= |attrs|
    ensures forall k :: 0 <= k < |r| ==> r[k].lang.None? && r[k].scheme.None?
    decreases |attrs|
  {
    if |attrs| == 0 then []
    else
      var e := attrs[0];
      (if IsOpfAttribute(e) && e.attr.decoded.Some? then [Refinement(LocalName(e.attr.key), e.attr.decoded.value, None, None)] else [])
      + OpfRefinements(attrs[1..])
  }

  /** One attribute of a Dublin Core start tag read into `acc`. */
  function ReadDcAttr(rev: Revision, legacy: bool, e: AttrEntry, acc: DcAttrs): (r: Result<DcAttrs, XmlError>)
    ensures r.Success? <==> (NeedsDecoding(rev, legacy, e) ==> e.attr.decoded.Some?)
    ensures r.Failure? ==> r.error == XmlMalformed
    ensures r.Success? ==> r.value.id == if HasLocal(e, "id")
                                       then (if rev == Modular then Some(e.attr.raw) else e.attr.decoded)
                                       else acc.id
    ensures r.Success? ==> r.value.lang == if HasLocal(e, "lang") then e.attr.decoded else acc.lang
    ensures r.Success? ==> r.value.refined == acc.refined + if legacy && IsOpfAttribute(e)
                                                           then [Refinement(LocalName(e.attr.key), e.attr.decoded.value, None, None)]
                                                           else []
  {
    match e
    case Malformed => Success(acc)
    case Valid(a) =>
      var local := LocalName(a.key);
      if local == "id" then
        if rev == Modular then Success(acc.(id := Some(a.raw)))
        else
          match Decoded(a)
          case Failure(err) => Failure(err)
          case Success(v) => Success(acc.(id := Some(v)))
      else if local == "lang" then
        match Decoded(a)
        case Failure(err) => Failure(err)
        case Success(v) => Success(acc.(lang := Some(v)))
      else if legacy && a.ns == Some(OpfNamespace) then
        match Decoded(a)
        case Failure(err) => Failure(err)
        case Success(v) => Success(acc.(refined := acc.refined + [Refinement(local, v, None, None)]))
      else Success(acc)
  }

  /**
   * Reads the attributes of a Dublin Core start tag, skipping malformed
   * ones: the (local name) `id` and `lang` attributes, a later one
   * overriding an earlier one, and, for an EPUB 2 package only, every
   * OPF-namespaced attribute as a refinement.
   */
  function ReadDcAttrs(rev: Revision, legacy: bool, attrs: seq<AttrEntry>, acc: DcAttrs): (r: Result<DcAttrs, XmlError>)
    // Reading fails exactly when an attribute whose value is used does not decode.
    ensures r.Success? <==> AllDecode(rev, legacy, attrs)
    ensures r.Failure? ==> r.error == XmlMalformed
    // The last `id` and `lang` win over earlier ones.
    ensures r.Success? ==> r.value.id == Shadow(DcId(rev, attrs), acc.id) && r.value.lang == Shadow(DcLang(attrs), acc.lang)
    // EPUB 2 adds the OPF-namespaced attributes as refinements; EPUB 3 adds none.
    ensures r.Success? ==> r.value.refined == acc.refined + (if legacy then OpfRefinements(attrs) else [])
    decreases |attrs|
  {
    if |attrs| == 0 then Success(acc)
    else
      ReadDcAttrsStep(rev, legacy, attrs, acc);
      match ReadDcAttr(rev, legacy, attrs[0], acc)
      case Failure(err) => Failure(err)
      case Success(next) => ReadDcAttrs(rev, legacy, attrs[1..], next)
  }

  /** All the attributes whose value is used decode. */
  predicate AllDecode(rev: Revision, legacy: bool, attrs: seq<AttrEntry>)
  {
    forall i :: 0 <= i < |attrs| && NeedsDecoding(rev, legacy, attrs[i]) ==> attrs[i].attr.decoded.Some?
  }

  /** Reading the first attribute leaves the rest to say the same about the whole list. */
  lemma ReadDcAttrsStep(rev: Revision, legacy: bool, attrs: seq<AttrEntry>, acc: DcAttrs)
    requires |attrs| > 0
    ensures AllDecode(rev, legacy, attrs) <==> ReadDcAttr(rev, legacy, attrs[0], acc).Success? && AllDecode(rev, legacy, attrs[1..])
    ensures ReadDcAttr(rev, legacy, attrs[0], acc).Success? && AllDecode(rev, legacy, attrs[1..]) ==>
      var next := ReadDcAttr(rev, legacy, attrs[0], acc).value;
      && Shadow(DcId(rev, attrs[1..]), next.id) == Shadow(DcId(rev, attrs), acc.id)
      && Shadow(DcLang(attrs[1..]), next.lang) == Shadow(DcLang(attrs), acc.lang)
    ensures ReadDcAttr(rev, legacy, attrs[0], acc).Success? ==>
      var next := ReadDcAttr(rev, legacy, attrs[0], acc).value;
      next.refined + (if legacy then OpfRefinements(attrs[1..]) else []) == acc.refined + (if legacy then OpfRefinements(attrs) else [])
  {
    AllDecodeStep(rev, legacy, attrs);
    if ReadDcAttr(rev, legacy, attrs[0], acc).Success? {
      var next := ReadDcAttr(rev, legacy, attrs[0], acc).value;
      if AllDecode(rev, legacy, attrs[1..]) {
        LastDecodes(rev, legacy, attrs[1..], "id");
        LastDecodes(rev, legacy, attrs[1..], "lang");
        DcIdStep(rev, attrs, acc.id, next.id);
        DcLangStep(attrs, acc.lang, next.lang);
      }
      RefinedStep(legacy, attrs, acc.refined, next.refined);
    }
  }

  lemma AllDecodeStep(rev: Revision, legacy: bool, attrs: seq<AttrEntry>)
    requires |attrs| > 0
    ensures AllDecode(rev, legacy, attrs) <==>
      (NeedsDecoding(rev, legacy, attrs[0]) ==> attrs[0].attr.decoded.Some?) && AllDecode(rev, legacy, attrs[1..])
  {
    assert forall i :: 0 < i < |attrs| ==> attrs[i] == attrs[1..][i - 1];
  }

  /** When every used attribute decodes, so do the last `id` (single-file) and the last `lang`. */
  lemma LastDecodes(rev: Revision, legacy: bool, attrs: seq<AttrEntry>, local: string)
    requires AllDecode(rev, legacy, attrs)
    ensures local == "lang" || (local == "id" && rev == SingleFile) ==>
      LastLocal(attrs, local).Some? ==> LastLocal(attrs, local).value.decoded.Some?
  {
    LastLocalIsLast(attrs, local);
  }

  lemma DcIdStep(rev: Revision, attrs: seq<AttrEntry>, before: Option<Id>, after: Option<Id>)
    requires |attrs| > 0
    requires rev == SingleFile && LastLocal(attrs[1..], "id").Some? ==> LastLocal(attrs[1..], "id").value.decoded.Some?
    requires after == if HasLocal(attrs[0], "id") then (if rev == Modular then Some(attrs[0].attr.raw) else attrs[0].attr.decoded) else before
    requires HasLocal(attrs[0], "id") && rev == SingleFile ==> attrs[0].attr.decoded.Some?
    ensures Shadow(DcId(rev, attrs[1..]), after) == Shadow(DcId(rev, attrs), before)
  {
    assert LastLocal(attrs, "id") == Shadow(LastLocal(attrs[1..], "id"), if HasLocal(attrs[0], "id") then Some(attrs[0].attr) else None);
  }

  lemma DcLangStep(attrs: seq<AttrEntry>, before: Option<string>, after: Option<string>)
    requires |attrs| > 0
    requires LastLocal(attrs[1..], "lang").Some? ==> LastLocal(attrs[1..], "lang").value.decoded.Some?
    requires after == if HasLocal(attrs[0], "lang") then attrs[0].attr.decoded else before
    requires HasLocal(attrs[0], "lang") ==> attrs[0].attr.decoded.Some?
    ensures Shadow(DcLang(attrs[1..]), after) == Shadow(DcLang(attrs), before)
  {
    assert LastLocal(attrs, "lang") == Shadow(LastLocal(attrs[1..], "lang"), if HasLocal(attrs[0], "lang") then Some(attrs[0].attr) else None);
  }

  lemma RefinedStep(legacy: bool, attrs: seq<AttrEntry>, before: seq<Refinement>, after: seq<Refinement>)
    requires |attrs| > 0
    requires legacy && IsOpfAttribute(attrs[0]) ==> attrs[0].attr.decoded.Some?
    requires after == before + if legacy && IsOpfAttribute(attrs[0])
                               then [Refinement(LocalName(attrs[0].attr.key), attrs[0].attr.decoded.value, None, None)]
                               else []
    ensures after + (if legacy then OpfRefinements(attrs[1..]) else []) == before + (if legacy then OpfRefinements(attrs) else [])
  {
    if legacy {
      var head := if IsOpfAttribute(attrs[0]) && attrs[0].attr.decoded.Some?
                  then [Refinement(LocalName(attrs[0].attr.key), attrs[0].attr.decoded.value, None, None)] else [];
      assert OpfRefinements(attrs) == head + OpfRefinements(attrs[1..]);
      AppendAssoc(before, head, OpfRefinements(attrs[1..]));
    }
  }


  /**
   * A Dublin Core element (`<dc:title>` and the like) becomes an item
   * named by its local name, with its value still to come.
   */
  function DcItem(rev: Revision, legacy: bool, t: Tag): (r: Result<MetadataItem, XmlError>)
    ensures r.Success? <==> AllDecode(rev, legacy, t.attrs)
    ensures r.Failure? ==> r.error == XmlMalformed
    ensures r.Success? ==> r.value == MetadataItem(DcId(rev, t.attrs), LocalName(t.name), "", DcLang(t.attrs),
                                                   if legacy then OpfRefinements(t.attrs) else [], false)
  {
    match ReadDcAttrs(rev, legacy, t.attrs, DcAttrs(None, None, []))
    case Failure(e) => Failure(e)
    case Success(d) => Success(MetadataItem(d.id, LocalName(t.name), "", d.lang, d.refined, false))
  }

  /** The id a `refines` attribute points at: a leading `#` is dropped. */
  function RefinedId(reference: string): (r: Id)
    ensures reference == r || reference == "#" + r
    ensures |reference| > 0 && reference[0] == '#' <==> reference == "#" + r
  {
    if |reference| > 0 && reference[0] == '#' then reference[1..] else reference
  }

  /** The refinements recorded for an id so far. */
  function RefsOf(refs: map<Id, seq<Refinement>>, id: Id): seq<Refinement>
  {
    if id in refs then refs[id] else []
  }

  /**
   * An OPF `<meta>` start tag. Without `property` it is ignored. With
   * `refines` it appends a refinement of the referenced id; otherwise it
   * appends a primary item. Either way its value is the next text.
   */
  function MetaElement(rev: Revision, t: Tag, s: MetaState): (r: Result<MetaState, XmlError>)
    requires Consistent(s)
    ensures r.Success? ==> Consistent(r.value)
    ensures r.Success? && GetDecoded(t, "property") == Success(None) ==> r.value == s
    ensures r.Success? && Found(GetDecoded(t, "property")) && Found(GetId(rev, t, "refines")) ==>
      var target := RefinedId(GetId(rev, t, "refines").value.value);
      && r.value.items == s.items
      && r.value.pending == PendingRefinement(target)
      && r.value.refs.Keys == s.refs.Keys + {target}
      && (forall k :: k in s.refs && k != target ==> r.value.refs[k] == s.refs[k])
      && GetDecoded(t, "xml:lang").Success? && GetDecoded(t, "scheme").Success?
      && r.value.refs[target] == RefsOf(s.refs, target) + [Refinement(
           GetDecoded(t, "property").value.value, "", GetDecoded(t, "xml:lang").value, GetDecoded(t, "scheme").value)]
    ensures r.Success? && Found(GetDecoded(t, "property")) && GetId(rev, t, "refines") == Success(None) ==>
      && r.value.refs == s.refs
      && r.value.pending == PendingItem
      && GetId(rev, t, "id").Success? && GetDecoded(t, "xml:lang").Success?
      && r.value.items == s.items + [MetadataItem(
           GetId(rev, t, "id").value, GetDecoded(t, "property").value.value, "", GetDecoded(t, "xml:lang").value, [], false)]
  {
    match GetDecoded(t, "property")
    case Failure(e) => Failure(e)
    case Success(None) => Success(s)
    case Success(Some(property)) =>
      match GetDecoded(t, "xml:lang")
      case Failure(e) => Failure(e)
      case Success(lang) =>
        match GetId(rev, t, "refines")
        case Failure(e) => Failure(e)
        case Success(Some(reference)) =>
          var target := RefinedId(reference);
          (match GetDecoded(t, "scheme")
           case Failure(e) => Failure(e)
           case Success(scheme) =>
             var refinement := Refinement(property, "", lang, scheme);
             Success(MetaState(s.items, s.refs[target := RefsOf(s.refs, target) + [refinement]], PendingRefinement(target))))
        case Success(None) =>
          match GetId(rev, t, "id")
          case Failure(e) => Failure(e)
          case Success(id) =>
            Success(MetaState(s.items + [MetadataItem(id, property, "", lang, [], false)], s.refs, PendingItem))
  }

  /**
   * An empty `<meta/>` of any namespace: an XHTML 1.1 style item when it
   * has both `name` and `content`, ignored otherwise. Only the modular
   * revision marks such items as legacy.
   */
  function LegacyMeta(rev: Revision, t: Tag, s: MetaState): (r: Result<MetaState, XmlError>)
    requires Consistent(s)
    ensures r.Success? <==> GetDecoded(t, "name").Success? && GetDecoded(t, "content").Success?
    ensures r.Success? ==> Consistent(r.value) && r.value.refs == s.refs && r.value.pending == s.pending
    ensures r.Success? && Found(GetDecoded(t, "name")) && Found(GetDecoded(t, "content")) ==>
      r.value.items == s.items + [MetadataItem(
        None, GetDecoded(t, "name").value.value, GetDecoded(t, "content").value.value, None, [], rev == Modular)]
    ensures r.Success? && !(Found(GetDecoded(t, "name")) && Found(GetDecoded(t, "content"))) ==> r.value == s
  {
    match GetDecoded(t, "name")
    case Failure(e) => Failure(e)
    case Success(name) =>
      match GetDecoded(t, "content")
      case Failure(e) => Failure(e)
      case Success(content) =>
        if name.Some? && content.Some? then
          Success(s.(items := s.items + [MetadataItem(None, name.value, content.value, None, [], rev == Modular)]))
        else Success(s)
  }

  /**
   * A readable empty `<meta/>` adds an item exactly when it has both `name`
   * and `content`, and the item is theirs.
   */
  lemma LegacyMetaNeedsNameAndContent(rev: Revision, t: Tag, s: MetaState)
    requires Consistent(s) && CleanTag(t)
    ensures var r := LegacyMeta(rev, t, s);
      && r.Success?
      && (r.value != s <==> HasAttr(t, "name") && HasAttr(t, "content"))
      && (r.value != s ==> r.value.items == s.items + [MetadataItem(
            None, GetDecoded(t, "name").value.value, GetDecoded(t, "content").value.value, None, [], rev == Modular)])
  {
    CleanLookup(t, "name");
    CleanLookup(t, "content");
    var r := LegacyMeta(rev, t, s);
    if HasAttr(t, "name") && HasAttr(t, "content") {
      assert |r.value.items| == |s.items| + 1;
    }
  }

  /**
   * One event of `parse_metadata`, the arms tried in the source's order:
   * the end of input and `</metadata>` finish; a text event completes a
   * pending value; a Dublin Core start tag, an OPF `<meta>` start tag and
   * an empty `<meta/>` add entries; every other event is skipped.
   */
  function MetaStep(rev: Revision, legacy: bool, s: MetaState, ev: Event): (r: Step<MetaState, XmlError>)
    requires Consistent(s)
    ensures ev == Eof ==> r == Finish(Success(s), false)
    ensures r.Finish? ==> (r.consumed <==> ev != Eof)
    ensures r.Finish? && r.result.Success? ==> r.result.value == s && (ev == Eof || IsEndOf(ev, "metadata"))
    ensures r.Continue? ==> Consistent(r.next)
    ensures ev.Text? && s.pending == NoPending ==> r == Continue(s)
    ensures ev.Text? && s.pending != NoPending && TextValue(rev, ev.raw, ev.unescaped).Success? ==>
      r == Continue(FillPending(s, TextValue(rev, ev.raw, ev.unescaped).value))
    ensures ev.Fail? ==> r == Finish(Failure(ev.error), true)
    // A Dublin Core start tag pushes its item, whose value is pending.
    ensures ev.Start? && ev.tag.ns == Some(DcNamespace) ==>
      && (DcItem(rev, legacy, ev.tag).Success? ==>
            r == Continue(MetaState(s.items + [DcItem(rev, legacy, ev.tag).value], s.refs, PendingItem)))
      && (DcItem(rev, legacy, ev.tag).Failure? ==> r == Finish(Failure(XmlMalformed), true))
    ensures ev.Start? && ev.tag.ns == Some(OpfNamespace) && LocalName(ev.tag.name) == "meta" ==>
      && (MetaElement(rev, ev.tag, s).Success? ==> r == Continue(MetaElement(rev, ev.tag, s).value))
      && (MetaElement(rev, ev.tag, s).Failure? ==> r == Finish(Failure(MetaElement(rev, ev.tag, s).error), true))
    // An empty `<meta/>` is read whatever its namespace.
    ensures ev.Empty? && LocalName(ev.tag.name) == "meta" ==>
      && (LegacyMeta(rev, ev.tag, s).Success? ==> r == Continue(LegacyMeta(rev, ev.tag, s).value))
      && (LegacyMeta(rev, ev.tag, s).Failure? ==> r == Finish(Failure(LegacyMeta(rev, ev.tag, s).error), true))
    // Everything else leaves the state as it was.
    ensures || ev.Other?
            || (ev.End? && LocalName(ev.name) != "metadata")
            || (ev.Start? && ev.tag.ns != Some(DcNamespace) && !(ev.tag.ns == Some(OpfNamespace) && LocalName(ev.tag.name) == "meta"))
            || (ev.Empty? && LocalName(ev.tag.name) != "meta")
            ==> r == Continue(s)
  {
    match ev
    case Eof => Finish(Success(s), false)
    case Fail(e) => Finish(Failure(e), true)
    case End(n) => if LocalName(n) == "metadata" then Finish(Success(s), true) else Continue(s)
    case Text(raw, unescaped) =>
      if s.pending == NoPending then Continue(s)
      else
        (match TextValue(rev, raw, unescaped)
         case Failure(e) => Finish(Failure(e), true)
         case Success(v) => Continue(FillPending(s, v)))
    case Start(t) =>
      if t.ns == Some(DcNamespace) then
        (match DcItem(rev, legacy, t)
         case Failure(e) => Finish(Failure(e), true)
         case Success(item) => Continue(MetaState(s.items + [item], s.refs, PendingItem)))
      else if t.ns == Some(OpfNamespace) && LocalName(t.name) == "meta" then
        (match MetaElement(rev, t, s)
         case Failure(e) => Finish(Failure(e), true)
         case Success(s') => Continue(s'))
      else Continue(s)
    case Empty(t) =>
      if LocalName(t.name) == "meta" then
        (match LegacyMeta(rev, t, s)
         case Failure(e) => Finish(Failure(e), true)
         case Success(s') => Continue(s'))
      else Continue(s)
    case Other => Continue(s)
  }

  /** The loop of `parse_metadata`, from the event after `<metadata>`. */
  function MetaLoop(rev: Revision, legacy: bool, evs: seq<Event>, pos: nat, s: MetaState): (r: (Result<MetaState, XmlError>, nat))
    requires Consistent(s)
    ensures pos <= r.1 && (pos <= |evs| ==> r.1 <= |evs|)
    ensures r.0.Success? ==> Consistent(r.0.value)
    decreases |evs| - pos
  {
    match MetaStep(rev, legacy, s, EventAt(evs, pos))
    case Finish(result, consumed) => (result, if consumed then pos + 1 else pos)
    case Continue(next) => MetaLoop(rev, legacy, evs, pos + 1, next)
  }

  /**
   * The item an event declares, with its value left empty: a Dublin Core
   * start tag always declares one, an OPF `<meta property>` without
   * `refines` does, and so does an empty `<meta name content/>`.
   */
  function ItemDeclaredBy(rev: Revision, legacy: bool, ev: Event): (r: seq<MetadataItem>)
    ensures |r| <= 1
  {
    match ev
    case Start(t) =>
      if t.ns == Some(DcNamespace) then
        [MetadataItem(DcId(rev, t.attrs), LocalName(t.name), "", DcLang(t.attrs), if legacy then OpfRefinements(t.attrs) else [], false)]
      else if && t.ns == Some(OpfNamespace) && LocalName(t.name) == "meta" && Found(GetDecoded(t, "property"))
              && GetId(rev, t, "refines") == Success(None) && GetId(rev, t, "id").Success? && GetDecoded(t, "xml:lang").Success? then
        [MetadataItem(GetId(rev, t, "id").value, GetDecoded(t, "property").value.value, "", GetDecoded(t, "xml:lang").value, [], false)]
      else []
    case Empty(t) =>
      if LocalName(t.name) == "meta" && Found(GetDecoded(t, "name")) && Found(GetDecoded(t, "content")) then
        [MetadataItem(None, GetDecoded(t, "name").value.value, GetDecoded(t, "content").value.value, None, [], rev == Modular)]
      else []
    case _ => []
  }

  /** The refinement of `id` an event declares, with its value left empty: an OPF `<meta property refines>` naming `id`. */
  function RefinementDeclaredBy(rev: Revision, ev: Event, id: Id): (r: seq<Refinement>)
    ensures |r| <= 1
  {
    match ev
    case Start(t) =>
      if && t.ns == Some(OpfNamespace) && LocalName(t.name) == "meta" && Found(GetDecoded(t, "property"))
         && Found(GetId(rev, t, "refines")) && RefinedId(GetId(rev, t, "refines").value.value) == id
         && GetDecoded(t, "xml:lang").Success? && GetDecoded(t, "scheme").Success? then
        [Refinement(GetDecoded(t, "property").value.value, "", GetDecoded(t, "xml:lang").value, GetDecoded(t, "scheme").value)]
      else []
    case _ => []
  }

  /** The items declared by the events in `[from, to)`, in order. */
  function DeclaredItems(rev: Revision, legacy: bool, evs: seq<Event>, from: nat, to: nat): seq<MetadataItem>
    decreases to - from
  {
    if from >= to then [] else ItemDeclaredBy(rev, legacy, EventAt(evs, from)) + DeclaredItems(rev, legacy, evs, from + 1, to)
  }

  /** The refinements of `id` declared by the events in `[from, to)`, in order. */
  function DeclaredRefs(rev: Revision, evs: seq<Event>, from: nat, to: nat, id: Id): seq<Refinement>
    decreases to - from
  {
    if from >= to then [] else RefinementDeclaredBy(rev, EventAt(evs, from), id) + DeclaredRefs(rev, evs, from + 1, to, id)
  }

  /** Items with their text values left out. */
  function Blanked(items: seq<MetadataItem>): (r: seq<MetadataItem>)
    ensures |r| == |items| && forall i :: 0 <= i < |items| ==> r[i] == items[i].(value := "")
  {
    seq(|items|, i requires 0 <= i < |items| => items[i].(value := ""))
  }

  /** Refinements with their text values left out. */
  function BlankedRefs(rs: seq<Refinement>): (r: seq<Refinement>)
    ensures |r| == |rs| && forall i :: 0 <= i < |rs| ==> r[i] == rs[i].(value := "")
  {
    seq(|rs|, i requires 0 <= i < |rs| => rs[i].(value := ""))
  }

  lemma BlankedAppend(a: seq<MetadataItem>, b: seq<MetadataItem>)
    ensures Blanked(a + b) == Blanked(a) + Blanked(b)
  {
    assert forall i :: 0 <= i < |a + b| ==> Blanked(a + b)[i] == (Blanked(a) + Blanked(b))[i];
  }

  lemma BlankedRefsAppend(a: seq<Refinement>, b: seq<Refinement>)
    ensures BlankedRefs(a + b) == BlankedRefs(a) + BlankedRefs(b)
  {
    assert forall i :: 0 <= i < |a + b| ==> BlankedRefs(a + b)[i] == (BlankedRefs(a) + BlankedRefs(b))[i];
  }

  /** Completing a pending value changes values only. */
  lemma FillPendingBlanked(s: MetaState, value: string)
    requires Consistent(s) && !s.pending.NoPending?
    ensures Blanked(FillPending(s, value).items) == Blanked(s.items)
    ensures forall id :: BlankedRefs(RefsOf(FillPending(s, value).refs, id)) == BlankedRefs(RefsOf(s.refs, id))
  {
    var r := FillPending(s, value);
    if s.pending == PendingItem {
      LastValueBlanked(s.items, r.items, value);
    } else {
      var t := s.pending.target;
      LastRefValueBlanked(s.refs[t], r.refs[t], value);
    }
  }

  lemma LastValueBlanked(a: seq<MetadataItem>, b: seq<MetadataItem>, value: string)
    requires |a| == |b| > 0 && b[..|b| - 1] == a[..|a| - 1] && b[|b| - 1] == a[|a| - 1].(value := value)
    ensures Blanked(b) == Blanked(a)
  {
    var n := |a| - 1;
    assert forall i :: 0 <= i < n ==> b[i] == b[..n][i] && a[i] == a[..n][i];
  }

  lemma LastRefValueBlanked(a: seq<Refinement>, b: seq<Refinement>, value: string)
    requires |a| == |b| > 0 && b[..|b| - 1] == a[..|a| - 1] && b[|b| - 1] == a[|a| - 1].(value := value)
    ensures BlankedRefs(b) == BlankedRefs(a)
  {
    var n := |a| - 1;
    assert forall i :: 0 <= i < n ==> b[i] == b[..n][i] && a[i] == a[..n][i];
  }

  /**
   * One event adds exactly what it declares: its item to the items and
   * its refinement to the refinements of the id it names, values aside.
   */
  lemma MetaStepDeclares(rev: Revision, legacy: bool, s: MetaState, ev: Event)
    requires Consistent(s) && MetaStep(rev, legacy, s, ev).Continue?
    ensures Blanked(MetaStep(rev, legacy, s, ev).next.items) == Blanked(s.items + ItemDeclaredBy(rev, legacy, ev))
    ensures forall id :: BlankedRefs(RefsOf(MetaStep(rev, legacy, s, ev).next.refs, id))
                      == BlankedRefs(RefsOf(s.refs, id) + RefinementDeclaredBy(rev, ev, id))
  {
    MetaStepDeclaresItems(rev, legacy, s, ev);
    MetaStepDeclaresRefs(rev, legacy, s, ev);
  }

  lemma MetaStepDeclaresItems(rev: Revision, legacy: bool, s: MetaState, ev: Event)
    requires Consistent(s) && MetaStep(rev, legacy, s, ev).Continue?
    ensures Blanked(MetaStep(rev, legacy, s, ev).next.items) == Blanked(s.items + ItemDeclaredBy(rev, legacy, ev))
  {
    match ev {
      case Text(raw, unescaped) =>
        if s.pending != NoPending {
          FillPendingBlanked(s, TextValue(rev, raw, unescaped).value);
        }
      case Start(t) =>
        if t.ns == Some(DcNamespace) {
          DcStartDeclares(rev, legacy, s, t);
        } else if t.ns == Some(OpfNamespace) && LocalName(t.name) == "meta" {
          MetaElementDeclares(rev, t, s);
        }
      case Empty(t) =>
        if LocalName(t.name) == "meta" {
          LegacyMetaDeclares(rev, legacy, t, s);
        }
      case _ =>
    }
  }

  lemma MetaStepDeclaresRefs(rev: Revision, legacy: bool, s: MetaState, ev: Event)
    requires Consistent(s) && MetaStep(rev, legacy, s, ev).Continue?
    ensures forall id :: BlankedRefs(RefsOf(MetaStep(rev, legacy, s, ev).next.refs, id))
                      == BlankedRefs(RefsOf(s.refs, id) + RefinementDeclaredBy(rev, ev, id))
  {
    match ev {
      case Text(raw, unescaped) =>
        if s.pending != NoPending {
          FillPendingBlanked(s, TextValue(rev, raw, unescaped).value);
        }
      case Start(t) =>
        if t.ns == Some(DcNamespace) {
          DcStartDeclares(rev, legacy, s, t);
        } else if t.ns == Some(OpfNamespace) && LocalName(t.name) == "meta" {
          MetaElementDeclares(rev, t, s);
        }
      case Empty(t) =>
        if LocalName(t.name) == "meta" {
          LegacyMetaDeclares(rev, legacy, t, s);
        }
      case _ =>
    }
  }

  /** What a Dublin Core start tag adds, in the terms of the declaration functions. */
  lemma DcStartDeclares(rev: Revision, legacy: bool, s: MetaState, t: Tag)
    requires Consistent(s) && t.ns == Some(DcNamespace) && DcItem(rev, legacy, t).Success?
    ensures s.items + [DcItem(rev, legacy, t).value] == s.items + ItemDeclaredBy(rev, legacy, Start(t))
    ensures forall id :: RefinementDeclaredBy(rev, Start(t), id) == []
  {
  }

  /** What an empty `<meta/>` adds, in the terms of the declaration functions. */
  lemma LegacyMetaDeclares(rev: Revision, legacy: bool, t: Tag, s: MetaState)
    requires Consistent(s) && LocalName(t.name) == "meta" && LegacyMeta(rev, t, s).Success?
    ensures LegacyMeta(rev, t, s).value.items == s.items + ItemDeclaredBy(rev, legacy, Empty(t))
    ensures LegacyMeta(rev, t, s).value.refs == s.refs
    ensures forall id :: RefinementDeclaredBy(rev, Empty(t), id) == []
  {
  }

  /** What an OPF `<meta>` start tag adds, in the terms of the declaration functions. */
  lemma MetaElementDeclares(rev: Revision, t: Tag, s: MetaState)
    requires Consistent(s) && t.ns == Some(OpfNamespace) && LocalName(t.name) == "meta" && MetaElement(rev, t, s).Success?
    ensures MetaElement(rev, t, s).value.items == s.items + ItemDeclaredBy(rev, false, Start(t))
    ensures forall id :: RefsOf(MetaElement(rev, t, s).value.refs, id) == RefsOf(s.refs, id) + RefinementDeclaredBy(rev, Start(t), id)
  {
  }

  /**
   * The first step of the loop: either it stops here, having collected
   * nothing more, or it continues at the next event from a state that
   * adds what this event declares.
   */
  lemma MetaTurn(rev: Revision, legacy: bool, evs: seq<Event>, pos: nat, s: MetaState) returns (done: bool, next: MetaState)
    requires Consistent(s)
    ensures done && MetaLoop(rev, legacy, evs, pos, s).0.Success? ==>
      && MetaLoop(rev, legacy, evs, pos, s).0.value == s
      && DeclaredItems(rev, legacy, evs, pos, MetaLoop(rev, legacy, evs, pos, s).1) == []
      && forall id :: DeclaredRefs(rev, evs, pos, MetaLoop(rev, legacy, evs, pos, s).1, id) == []
    ensures !done ==>
      && pos < |evs|
      && Consistent(next)
      && MetaLoop(rev, legacy, evs, pos, s) == MetaLoop(rev, legacy, evs, pos + 1, next)
      && Blanked(next.items) == Blanked(s.items + ItemDeclaredBy(rev, legacy, evs[pos]))
      && forall id :: BlankedRefs(RefsOf(next.refs, id)) == BlankedRefs(RefsOf(s.refs, id) + RefinementDeclaredBy(rev, evs[pos], id))
  {
    var ev := EventAt(evs, pos);
    var step := MetaStep(rev, legacy, s, ev);
    done := step.Finish?;
    next := s;
    if !done {
      next := step.next;
      MetaStepDeclares(rev, legacy, s, ev);
    } else if step.result.Success? {
      var stop := MetaLoop(rev, legacy, evs, pos, s).1;
      if step.consumed {
        assert IsEndOf(ev, "metadata");
        assert DeclaredItems(rev, legacy, evs, pos + 1, stop) == [];
        forall id ensures DeclaredRefs(rev, evs, pos, stop, id) == [] {
          assert DeclaredRefs(rev, evs, pos + 1, stop, id) == [];
        }
      }
    }
  }

  lemma BlankedExtend(n: seq<MetadataItem>, s: seq<MetadataItem>, here: seq<MetadataItem>, rest: seq<MetadataItem>)
    requires Blanked(n) == Blanked(s + here)
    ensures Blanked(n + rest) == Blanked(s + (here + rest))
  {
    BlankedAppend(n, rest);
    BlankedAppend(s + here, rest);
    assert s + here + rest == s + (here + rest);
  }

  lemma BlankedRefsExtend(n: seq<Refinement>, s: seq<Refinement>, here: seq<Refinement>, rest: seq<Refinement>)
    requires BlankedRefs(n) == BlankedRefs(s + here)
    ensures BlankedRefs(n + rest) == BlankedRefs(s + (here + rest))
  {
    BlankedRefsAppend(n, rest);
    BlankedRefsAppend(s + here, rest);
    assert s + here + rest == s + (here + rest);
  }

  /**
   * The loop collects exactly the items and refinements its events
   * declare, in order, from `pos` up to where it stops; only the text
   * values are left to the per-event contracts.
   */
  lemma {:induction false} MetaLoopCollects(rev: Revision, legacy: bool, evs: seq<Event>, pos: nat, s: MetaState)
    requires Consistent(s)
    ensures var r := MetaLoop(rev, legacy, evs, pos, s);
      r.0.Success? ==>
        && Blanked(r.0.value.items) == Blanked(s.items + DeclaredItems(rev, legacy, evs, pos, r.1))
        && forall id :: BlankedRefs(RefsOf(r.0.value.refs, id)) == BlankedRefs(RefsOf(s.refs, id) + DeclaredRefs(rev, evs, pos, r.1, id))
    decreases |evs| - pos
  {
    var done, next := MetaTurn(rev, legacy, evs, pos, s);
    var r := MetaLoop(rev, legacy, evs, pos, s);
    if r.0.Success? {
      var stop := r.1;
      if done {
        assert s.items + DeclaredItems(rev, legacy, evs, pos, stop) == s.items;
        forall id ensures RefsOf(s.refs, id) + DeclaredRefs(rev, evs, pos, stop, id) == RefsOf(s.refs, id) {
        }
      } else {
        MetaLoopCollects(rev, legacy, evs, pos + 1, next);
        assert DeclaredItems(rev, legacy, evs, pos, stop)
            == ItemDeclaredBy(rev, legacy, evs[pos]) + DeclaredItems(rev, legacy, evs, pos + 1, stop);
        BlankedExtend(next.items, s.items, ItemDeclaredBy(rev, legacy, evs[pos]), DeclaredItems(rev, legacy, evs, pos + 1, stop));
        forall id
          ensures BlankedRefs(RefsOf(r.0.value.refs, id)) == BlankedRefs(RefsOf(s.refs, id) + DeclaredRefs(rev, evs, pos, stop, id))
        {
          assert DeclaredRefs(rev, evs, pos, stop, id)
              == RefinementDeclaredBy(rev, evs[pos], id) + DeclaredRefs(rev, evs, pos + 1, stop, id);
          BlankedRefsExtend(RefsOf(next.refs, id), RefsOf(s.refs, id), RefinementDeclaredBy(rev, evs[pos], id),
                            DeclaredRefs(rev, evs, pos + 1, stop, id));
        }
      }
    }
  }

  /**
   * Attaches the collected refinements: each id's refinements go, in
   * order, to the first item carrying that id; items are otherwise kept.
   */
  function Merge(items: seq<MetadataItem>, refs: map<Id, seq<Refinement>>): (r: seq<MetadataItem>)
    ensures |r| == |items|
    decreases |items|
  {
    if |items| == 0 then []
    else
      var item := items[0];
      if item.id.Some? && item.id.value in refs then
        [item.(refined := item.refined + refs[item.id.value])] + Merge(items[1..], refs - {item.id.value})
      else [item] + Merge(items[1..], refs)
  }

  /** Item `i` is the first item with its id. */
  predicate FirstWithId(items: seq<MetadataItem>, i: int)
    requires 0 <= i < |items|
  {
    items[i].id.Some? && forall j :: 0 <= j < i ==> items[j].id != items[i].id
  }

  /** Reference definition of one merged item. */
  function Merged(items: seq<MetadataItem>, refs: map<Id, seq<Refinement>>, i: int): MetadataItem
    requires 0 <= i < |items|
  {
    var item := items[i];
    if FirstWithId(items, i) && item.id.value in refs then item.(refined := item.refined + refs[item.id.value])
    else item
  }

  lemma {:induction false} MergeAttachesToFirst(items: seq<MetadataItem>, refs: map<Id, seq<Refinement>>)
    ensures forall i :: 0 <= i < |items| ==> Merge(items, refs)[i] == Merged(items, refs, i)
    decreases |items|
  {
    if |items| > 0 {
      var item := items[0];
      var refs' := if item.id.Some? && item.id.value in refs then refs - {item.id.value} else refs;
      var tail := items[1..];
      MergeAttachesToFirst(tail, refs');
      forall i | 1 <= i < |items|
        ensures Merge(items, refs)[i] == Merged(items, refs, i)
      {
        assert Merge(items, refs)[i] == Merge(tail, refs')[i - 1];
        assert tail[i - 1] == items[i];
        if items[i].id.Some? {
          if items[i].id == item.id {
            assert !FirstWithId(items, i);
          } else {
            assert FirstWithId(items, i) <==> FirstWithId(tail, i - 1) by {
              if FirstWithId(tail, i - 1) {
                forall j | 0 <= j < i ensures items[j].id != items[i].id {
                  if j > 0 { assert items[j] == tail[j - 1]; }
                }
              }
              if FirstWithId(items, i) {
                forall j | 0 <= j < i - 1 ensures tail[j].id != tail[i - 1].id {
                  assert tail[j] == items[j + 1];
                }
              }
            }
          }
        }
      }
    }
  }

  /**
   * `parse_metadata`: reads the section, then attaches the refinements.
   * `legacy` is whether the package declared EPUB 2.
   */
  function ParseMetadata(rev: Revision, version: Version, evs: seq<Event>, pos: nat): (r: (Result<seq<MetadataItem>, XmlError>, nat))
    ensures pos <= r.1 && (pos <= |evs| ==> r.1 <= |evs|)
    ensures r.0.Success? ==> MetaLoop(rev, version == Epub2, evs, pos, Initial).0.Success?
    ensures r.0.Success? ==> var s := MetaLoop(rev, version == Epub2, evs, pos, Initial).0.value;
      |r.0.value| == |s.items| && forall i :: 0 <= i < |s.items| ==> r.0.value[i] == Merged(s.items, s.refs, i)
  {
    var (result, next) := MetaLoop(rev, version == Epub2, evs, pos, Initial);
    match result
    case Failure(e) => (Failure(e), next)
    case Success(s) =>
      MergeAttachesToFirst(s.items, s.refs);
      (Success(Merge(s.items, s.refs)), next)
  }

  /** Items equal up to their values carry the same ids, so the same items come first with their id. */
  lemma FirstWithIdBlanked(a: seq<MetadataItem>, b: seq<MetadataItem>, i: int)
    requires Blanked(a) == Blanked(b) && 0 <= i < |a|
    ensures |b| == |a| && a[i].id == b[i].id && a[i].refined == b[i].refined
    ensures FirstWithId(a, i) <==> FirstWithId(b, i)
  {
    assert a[i].(value := "") == Blanked(a)[i] == b[i].(value := "");
    forall j | 0 <= j < i ensures a[j].id == b[j].id {
      assert a[j].(value := "") == Blanked(a)[j] == b[j].(value := "");
    }
  }

  /** The loop from the start of the section collects what the section declares. */
  lemma MetaLoopCollectsFromStart(rev: Revision, legacy: bool, evs: seq<Event>, pos: nat)
    ensures var r := MetaLoop(rev, legacy, evs, pos, Initial);
      r.0.Success? ==>
        && Blanked(r.0.value.items) == Blanked(DeclaredItems(rev, legacy, evs, pos, r.1))
        && forall id :: BlankedRefs(RefsOf(r.0.value.refs, id)) == BlankedRefs(DeclaredRefs(rev, evs, pos, r.1, id))
  {
    MetaLoopCollects(rev, legacy, evs, pos, Initial);
    var r := MetaLoop(rev, legacy, evs, pos, Initial);
    assert [] + DeclaredItems(rev, legacy, evs, pos, r.1) == DeclaredItems(rev, legacy, evs, pos, r.1);
    forall id ensures [] + DeclaredRefs(rev, evs, pos, r.1, id) == DeclaredRefs(rev, evs, pos, r.1, id) {
    }
  }

  /** One merged item against its declaration, given that the collected refinements match the declared ones `dr`. */
  lemma MergedDeclared(s: MetaState, declared: seq<MetadataItem>, i: int, dr: seq<Refinement>)
    requires Blanked(s.items) == Blanked(declared) && 0 <= i < |declared|
    requires FirstWithId(declared, i) ==> BlankedRefs(RefsOf(s.refs, declared[i].id.value)) == BlankedRefs(dr)
    requires !FirstWithId(declared, i) ==> dr == []
    ensures Merged(s.items, s.refs, i).(value := "", refined := []) == declared[i].(value := "", refined := [])
    ensures BlankedRefs(Merged(s.items, s.refs, i).refined) == BlankedRefs(declared[i].refined + dr)
  {
    FirstWithIdBlanked(s.items, declared, i);
    assert s.items[i].(value := "") == Blanked(s.items)[i] == declared[i].(value := "");
    if FirstWithId(declared, i) {
      var id := declared[i].id.value;
      BlankedRefsAppend(s.items[i].refined, RefsOf(s.refs, id));
      BlankedRefsAppend(declared[i].refined, dr);
      if id !in s.refs {
        assert s.items[i].refined + RefsOf(s.refs, id) == s.items[i].refined;
      }
    } else {
      assert declared[i].refined + dr == declared[i].refined;
    }
  }

  /**
   * The metadata `parse_metadata` returns: one item per item declared in
   * the section, in document order, each carrying its own refinements and,
   * when it is the first item with its id, every refinement declared for
   * that id, in document order (text values aside).
   */
  lemma ParseMetadataCollects(rev: Revision, version: Version, evs: seq<Event>, pos: nat)
    ensures var r := ParseMetadata(rev, version, evs, pos);
      r.0.Success? ==>
        var declared := DeclaredItems(rev, version == Epub2, evs, pos, r.1);
        && |r.0.value| == |declared|
        && forall i :: 0 <= i < |declared| ==>
             && r.0.value[i].(value := "", refined := []) == declared[i].(value := "", refined := [])
             && BlankedRefs(r.0.value[i].refined)
                == BlankedRefs(declared[i].refined
                               + if FirstWithId(declared, i) then DeclaredRefs(rev, evs, pos, r.1, declared[i].id.value) else [])
  {
    var legacy := version == Epub2;
    var loop := MetaLoop(rev, legacy, evs, pos, Initial);
    var r := ParseMetadata(rev, version, evs, pos);
    if r.0.Success? {
      MetaLoopCollectsFromStart(rev, legacy, evs, pos);
      var s := loop.0.value;
      var declared := DeclaredItems(rev, legacy, evs, pos, loop.1);
      forall i | 0 <= i < |declared|
        ensures r.0.value[i].(value := "", refined := []) == declared[i].(value := "", refined := [])
        ensures BlankedRefs(r.0.value[i].refined)
                == BlankedRefs(declared[i].refined
                               + if FirstWithId(declared, i) then DeclaredRefs(rev, evs, pos, loop.1, declared[i].id.value) else [])
      {
        var dr := if FirstWithId(declared, i) then DeclaredRefs(rev, evs, pos, loop.1, declared[i].id.value) else [];
        MergedDeclared(s, declared, i, dr);
      }
    }
  }
}
