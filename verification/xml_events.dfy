/**
 * The XML reader the EPUB code drives, seen as the sequence of events it
 * yields after text trimming. The tokenizer itself is not modelled: an
 * event sequence stands for what it produces, and running past the end of
 * the sequence reads `Eof`, as the reader does forever once the input ends.
 */
module XmlEvents {
  import opened Wrappers

  /** A reader failure: an I/O error of the underlying stream, or any other XML error. */
  datatype XmlError = XmlIo | XmlMalformed

  /**
   * One attribute: its qualified name as written (`key`), the namespace its
   * prefix resolves to, its raw bytes and its unescaped, decoded value
   * (`None` when unescaping or decoding fails).
   */
  datatype Attr = Attr(key: string, ns: Option<string>, raw: string, decoded: Option<string>)

  /** An attribute slot as the attribute iterator yields it: well-formed, or an attribute error. */
  datatype AttrEntry = Valid(attr: Attr) | Malformed

  /** A start or empty tag: qualified name, resolved element namespace, attributes in document order. */
  datatype Tag = Tag(name: string, ns: Option<string>, attrs: seq<AttrEntry>)

  datatype Event =
    | Start(tag: Tag)
    | Empty(tag: Tag)
    | End(name: string)
    | Text(raw: string, unescaped: Option<string>)
    | Other
    | Eof
    | Fail(error: XmlError)

  const DcNamespace := "http://purl.org/dc/elements/1.1/"
  const OpfNamespace := "http://www.idpf.org/2007/opf"

  /** Position of the first `:` in a qualified name, if any. */
  function ColonIndex(q: string): (r: Option<nat>)
    ensures r.None? <==> ':' !in q
    ensures r.Some? ==> r.value < |q| && q[r.value] == ':' && ':' !in q[..r.value]
  {
    if |q| == 0 then None
    else if q[0] == ':' then Some(0)
    else match ColonIndex(q[1..])
      case None => None
      case Some(i) =>
        assert q[..i + 1] == [q[0]] + q[1..][..i];
        Some(i + 1)
  }

  /** Local part of a qualified name: everything after the first `:`, as `QName::local_name`. */
  function LocalName(q: string): (r: string)
    ensures ':' !in q ==> r == q
    ensures ':' in q ==> exists i :: 0 <= i < |q| && q[i] == ':' && ':' !in q[..i] && r == q[i + 1..]
  {
    match ColonIndex(q)
    case None => q
    case Some(i) => q[i + 1..]
  }

  /** The event the reader yields at `pos`: past the end it is `Eof`. */
  function EventAt(evs: seq<Event>, pos: nat): Event
  {
    if pos < |evs| then evs[pos] else Eof
  }

  predicate IsStartOf(ev: Event, local: string)
  {
    ev.Start? && LocalName(ev.tag.name) == local
  }

  predicate IsEmptyOf(ev: Event, local: string)
  {
    ev.Empty? && LocalName(ev.tag.name) == local
  }

  predicate IsEndOf(ev: Event, local: string)
  {
    ev.End? && LocalName(ev.name) == local
  }

  /** No attribute before position `i` is malformed or has the qualified name `key`. */
  predicate ClearBefore(attrs: seq<AttrEntry>, key: string, i: int)
  {
    forall j :: 0 <= j < i && j < |attrs| ==> attrs[j].Valid? && attrs[j].attr.key != key
  }

  /**
   * `BytesStart::try_get_attribute`: scans the attributes in order, fails on
   * the first attribute error met before a match, and otherwise returns the
   * first attribute whose qualified name is `key`.
   */
  function TryGetAttribute(attrs: seq<AttrEntry>, key: string): (r: Result<Option<Attr>, XmlError>)
    ensures r.Success? && r.value.Some? ==>
      exists i :: 0 <= i < |attrs| && attrs[i] == Valid(r.value.value) && r.value.value.key == key && ClearBefore(attrs, key, i)
    ensures r.Success? && r.value.None? <==>
      forall i :: 0 <= i < |attrs| ==> attrs[i].Valid? && attrs[i].attr.key != key
    ensures r.Failure? ==> r.error == XmlMalformed
    ensures r.Failure? <==> exists i :: 0 <= i < |attrs| && attrs[i] == Malformed && ClearBefore(attrs, key, i)
  {
    if |attrs| == 0 then Success(None)
    else match attrs[0]
      case Malformed =>
        assert attrs[0] == Malformed && ClearBefore(attrs, key, 0);
        Failure(XmlMalformed)
      case Valid(a) =>
        if a.key == key then
          assert attrs[0] == Valid(a) && ClearBefore(attrs, key, 0);
          Success(Some(a))
        else
          TryGetAttribute(attrs[1..], key)
  }

  /** `get_attribute` of the package parser: the raw bytes of the attribute. */
  function GetRaw(t: Tag, key: string): (r: Result<Option<string>, XmlError>)
    ensures r.Success? && r.value.Some? ==>
      exists i :: 0 <= i < |t.attrs| && t.attrs[i].Valid? && t.attrs[i].attr.key == key && t.attrs[i].attr.raw == r.value.value
        && ClearBefore(t.attrs, key, i)
    ensures r.Success? && r.value.None? <==> TryGetAttribute(t.attrs, key) == Success(None)
    ensures r.Failure? <==> exists i :: 0 <= i < |t.attrs| && t.attrs[i] == Malformed && ClearBefore(t.attrs, key, i)
  {
    match TryGetAttribute(t.attrs, key)
    case Failure(e) => Failure(e)
    case Success(None) => Success(None)
    case Success(Some(a)) => Success(Some(a.raw))
  }

  /** `get_attribute_decoded`: the unescaped, decoded value; failing decoding is an XML error. */
  function GetDecoded(t: Tag, key: string): (r: Result<Option<string>, XmlError>)
    ensures r.Success? && r.value.Some? ==>
      exists i :: 0 <= i < |t.attrs| && t.attrs[i].Valid? && t.attrs[i].attr.key == key && t.attrs[i].attr.decoded == Some(r.value.value)
        && ClearBefore(t.attrs, key, i)
    ensures r.Success? && r.value.None? <==> TryGetAttribute(t.attrs, key) == Success(None)
    ensures r.Failure? <==> TryGetAttribute(t.attrs, key).Failure? || (TryGetAttribute(t.attrs, key).Success? && TryGetAttribute(t.attrs, key).value.Some? && TryGetAttribute(t.attrs, key).value.value.decoded.None?)
  {
    match TryGetAttribute(t.attrs, key)
    case Failure(e) => Failure(e)
    case Success(None) => Success(None)
    case Success(Some(a)) =>
      match a.decoded
      case None => Failure(XmlMalformed)
      case Some(v) => Success(Some(v))
  }
}
