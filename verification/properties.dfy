/**
 * The `properties` attribute of manifest items and itemrefs: a list of
 * tokens separated by single spaces, such as `nav` or `cover-image`
 * (EPUB 3.3 Package Document, manifest item properties).
 */
module Properties {
  import opened Wrappers

  /** Position of the first space. */
  function SpaceIndex(s: string): (i: nat)
    requires ' ' in s
    ensures i < |s| && s[i] == ' ' && ' ' !in s[..i]
  {
    if s[0] == ' ' then 0
    else
      var j := SpaceIndex(s[1..]);
      assert s[..j + 1] == [s[0]] + s[1..][..j];
      j + 1
  }

  /** `str::split(' ')`: every single space separates two tokens, so empty tokens are possible. */
  function Split(s: string): (r: seq<string>)
    ensures |r| >= 1
    ensures forall k :: 0 <= k < |r| ==> ' ' !in r[k]
    decreases |s|
  {
    if ' ' !in s then [s]
    else
      var i := SpaceIndex(s);
      [s[..i]] + Split(s[i + 1..])
  }

  /** Joining tokens with single spaces: the inverse of `Split`. */
  function Join(ts: seq<string>): string
  {
    if |ts| == 0 then ""
    else if |ts| == 1 then ts[0]
    else ts[0] + " " + Join(ts[1..])
  }

  /** `PropertiesValue::has`: whether `property` is one of the space-separated tokens. */
  function Has(value: string, property: string): bool
  {
    property in Split(value)
  }

  /** `property` occurs in `value` at `i`, bounded by spaces or the ends of `value`. */
  predicate TokenAt(value: string, property: string, i: int)
  {
    && 0 <= i && i + |property| <= |value|
    && value[i..i + |property|] == property
    && (i == 0 || value[i - 1] == ' ')
    && (i + |property| == |value| || value[i + |property|] == ' ')
  }

  lemma {:induction false} SplitJoin(s: string)
    ensures Join(Split(s)) == s
    decreases |s|
  {
    if ' ' in s {
      var i := SpaceIndex(s);
      SplitJoin(s[i + 1..]);
      assert s == s[..i] + " " + s[i + 1..];
    }
  }

  lemma {:induction false} JoinSplit(ts: seq<string>)
    requires |ts| >= 1
    requires forall k :: 0 <= k < |ts| ==> ' ' !in ts[k]
    ensures Split(Join(ts)) == ts
  {
    if |ts| > 1 {
      JoinSplit(ts[1..]);
      var s := Join(ts);
      assert s == ts[0] + " " + Join(ts[1..]);
      assert s[|ts[0]|] == ' ';
      assert s[..|ts[0]|] == ts[0];
      assert ' ' in s;
      var i := SpaceIndex(s);
      assert s[i + 1..] == Join(ts[1..]);
    }
  }

  lemma {:induction false} HasYieldsTokenAt(value: string, property: string)
    requires Has(value, property)
    ensures ' ' !in property
    ensures exists i :: TokenAt(value, property, i)
    decreases |value|
  {
    if ' ' !in value {
      assert TokenAt(value, property, 0);
    } else {
      var i := SpaceIndex(value);
      var rest := value[i + 1..];
      assert Split(value) == [value[..i]] + Split(rest);
      if property == value[..i] {
        assert TokenAt(value, property, 0);
      } else {
        assert Has(rest, property);
        HasYieldsTokenAt(rest, property);
        var j :| TokenAt(rest, property, j);
        assert value[i + 1 + j..i + 1 + j + |property|] == rest[j..j + |property|];
        assert TokenAt(value, property, i + 1 + j);
      }
    }
  }

  lemma {:induction false} TokenAtYieldsHas(value: string, property: string, at: int)
    requires ' ' !in property
    requires TokenAt(value, property, at)
    ensures Has(value, property)
    decreases |value|
  {
    if ' ' !in value {
      assert property == value;
    } else {
      var i := SpaceIndex(value);
      var rest := value[i + 1..];
      assert Split(value) == [value[..i]] + Split(rest);
      if at == 0 {
        assert property == value[..i];
      } else {
        assert rest[at - i - 1..at - i - 1 + |property|] == value[at..at + |property|];
        assert TokenAt(rest, property, at - i - 1);
        TokenAtYieldsHas(rest, property, at - i - 1);
      }
    }
  }

  /**
   * `has(p)` holds exactly when `p` is a space-free stretch of the value
   * bounded by spaces or the ends of the value.
   */
  lemma HasIffToken(value: string, property: string)
    ensures Has(value, property) <==> ' ' !in property && exists i :: TokenAt(value, property, i)
  {
    if Has(value, property) {
      HasYieldsTokenAt(value, property);
    }
    if ' ' !in property && exists i :: TokenAt(value, property, i) {
      var i :| TokenAt(value, property, i);
      TokenAtYieldsHas(value, property, i);
    }
  }

  /** `Option<PropertiesValue>::is_some_and(|v| v.has(p))`. */
  function HasOpt(value: Option<string>, property: string): bool
  {
    value.Some? && Has(value.value, property)
  }
}
