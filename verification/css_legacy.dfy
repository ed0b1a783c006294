/**
 * The older, non-recursive CSS regulator of css.rs. At the top level it
 * alternates between a prelude (copied token by token up to the next
 * `{...}` block) and one curly block, whose contents are regulated with a
 * single line-height flag. Below the block contents it does not recurse:
 * a function, parenthesis or square block is copied one level deep, and a
 * block inside that keeps only its opener.
 */
module CssLegacy {
  import opened Wrappers
  import opened Ascii
  import opened CssTokens
  import opened CssValues
  import opened Alter

  predicate IsCurly(n: Node)
  {
    n.Block? && n.kind.CurlyBlock?
  }

  /** `Parser::is_exhausted`: only whitespace is left. */
  predicate Exhausted(nodes: seq<Node>)
  {
    forall j :: 0 <= j < |nodes| ==> nodes[j].Leaf? && nodes[j].token.WhiteSpace?
  }

  /** Where `parse_until_before(CurlyBracketBlock)` stops: the first top-level curly block, or the end. */
  function FirstCurly(nodes: seq<Node>): (i: nat)
    ensures i <= |nodes|
    ensures forall j :: 0 <= j < i ==> !IsCurly(nodes[j])
    ensures i < |nodes| ==> IsCurly(nodes[i])
  {
    if |nodes| == 0 then 0
    else if IsCurly(nodes[0]) then 0
    else 1 + FirstCurly(nodes[1..])
  }

  /** A token of a nested parser written by `to_css_string`: a block token is its opener only. */
  function FlatPiece(n: Node): Piece
  {
    match n
    case Leaf(t) => Css(t)
    case Block(k, _, _) => Open(k)
  }

  /** The inner copy loop: one piece per token, the contents of blocks inside skipped. */
  function Flat(nodes: seq<Node>): (r: seq<Piece>)
    ensures |r| == |nodes|
    ensures forall j :: 0 <= j < |nodes| ==> r[j] == FlatPiece(nodes[j])
  {
    if |nodes| == 0 then [] else [FlatPiece(nodes[0])] + Flat(nodes[1..])
  }

  /** What a block outside the curly contents writes: opener, one-level copy, closer. */
  function Framed(k: BlockKind, children: seq<Node>): seq<Piece>
  {
    [Open(k)] + Flat(children) + [Lit([Closer(k)])]
  }

  /** A block whose own nested parse is run, and whose failure therefore counts. */
  predicate FailedAt(nodes: seq<Node>, j: int)
    requires 0 <= j < |nodes|
  {
    nodes[j].Block? && nodes[j].failed
  }

  /**
   * The prelude loop: every token is copied; a function, parenthesis or
   * square block is framed, and a failing one fails the whole call.
   */
  function Prelude(nodes: seq<Node>): (r: Option<seq<Piece>>)
    requires forall j :: 0 <= j < |nodes| ==> !IsCurly(nodes[j])
    ensures r.None? <==> exists j :: 0 <= j < |nodes| && FailedAt(nodes, j)
    ensures (forall j :: 0 <= j < |nodes| ==> nodes[j].Leaf?) ==> r == Some(Flat(nodes))
    decreases nodes
  {
    if |nodes| == 0 then Some([])
    else
      assert forall j :: 0 <= j < |nodes| - 1 ==> FailedAt(nodes[1..], j) == FailedAt(nodes, j + 1);
      assert forall j :: 0 < j < |nodes| ==> FailedAt(nodes, j) == FailedAt(nodes[1..], j - 1);
      assert FailedAt(nodes, 0) <==> nodes[0].Block? && nodes[0].failed;
      var first := match nodes[0]
        case Leaf(t) => Some([Css(t)])
        case Block(k, children, failed) => if failed then None else Some(Framed(k, children));
      match first
      case None => None
      case Some(out) =>
        match Prelude(nodes[1..])
        case None => None
        case Some(rest) => Some(out + rest)
  }

  /**
   * One turn of the loop inside a curly block for a token that opens no
   * block: what it writes and the line-height flag after it, arms tried in
   * source order.
   */
  function BodyEmit(t: Token, lh: bool): (r: (seq<Piece>, bool))
    // `;` is written and clears the flag.
    ensures t.Semicolon? ==> r == ([Lit(";")], false)
    // `line-height` is written as the stylesheet has it and sets the flag.
    ensures IsWord(t, "line-height") ==> r == ([Css(t)], true)
    // The flag changes on those two tokens only.
    ensures r.1 != lh ==> t.Semicolon? || IsWord(t, "line-height")
    // An integer zero dimension is written `0` in every context.
    ensures IsZero(t) ==> r.0 == [Lit("0")]
    // In line-height context the value forms of `regulated_line_height` are used.
    ensures lh && !IsZero(t) && LineHeightOperand(t).Some? ==> r.0 == RegulatedLineHeight(LineHeightOperand(t).value)
    // Outside it, absolute lengths become rem.
    ensures !lh && t.Dimension? && !IsZero(t) && AbsLengthInRemAsWritten(t.value, t.unit).Some? ==>
      r.0 == Rem(AbsLengthInRemAsWritten(t.value, t.unit).value)
    // Size keywords become rem in every context.
    ensures t.Ident? && SizeInRem(t.name).Some? ==> r.0 == Rem(SizeInRem(t.name).value)
    // Every other identifier is copied unchanged: no font substitution here.
    ensures t.Ident? && SizeInRem(t.name).None? && !(lh && IsWord(t, "normal")) ==> r.0 == [Css(t)]
  {
    DistinctWords(t);
    if t.Semicolon? then ([Lit(";")], false)
    else if lh && t.Percentage? then (RegulatedLineHeight(LhPercentage(t.unitValue)), lh)
    else if lh && t.Number? then (RegulatedLineHeight(LhNumber(t.value)), lh)
    else if IsZero(t) then ([Lit("0")], lh)
    else if lh && t.Dimension? then (RegulatedLineHeight(LhLength(t.value, UnitBuffer(t.unit))), lh)
    else if t.Dimension? then
      (match AbsLengthInRemAsWritten(t.value, t.unit)
       case Some(rem) => Rem(rem)
       case None => [Css(t)], lh)
    else if lh && IsWord(t, "normal") then (RegulatedLineHeight(LhNormal), lh)
    else if t.Ident? then
      (match SizeInRem(t.name)
       case Some(rem) => Rem(rem)
       case None => [Css(t)], lh || EqIgnoreCase(t.name, "line-height"))
    else ([Css(t)], lh)
  }

  /** Counterexample, as written: the legacy regulator writes `40Q` (one centimetre) exactly as it writes `1mm`. */
  lemma LegacyFortyQuartersEmitted()
    ensures BodyEmit(Dimension(40.0, Some(40), "Q"), false).0 == BodyEmit(Dimension(1.0, Some(1), "mm"), false).0
    ensures BodyEmit(Dimension(40.0, Some(40), "Q"), false).0 != BodyEmit(Dimension(1.0, Some(1), "cm"), false).0
  {
    FortyQuartersAsWritten();
  }

  /** A block inside curly contents whose own nested parse is run: a function, parenthesis or square block. */
  predicate ShallowFailedAt(nodes: seq<Node>, j: int)
    requires 0 <= j < |nodes|
  {
    FailedAt(nodes, j) && !IsCurly(nodes[j])
  }

  /**
   * The loop inside a curly block. A function, parenthesis or square block
   * is framed and leaves the flag alone; a curly block inside writes its
   * opener only, its contents being skipped.
   */
  function Body(nodes: seq<Node>, lh: bool): (r: Option<seq<Piece>>)
    ensures r.None? <==> exists j :: 0 <= j < |nodes| && ShallowFailedAt(nodes, j)
    decreases nodes
  {
    if |nodes| == 0 then Some([])
    else
      assert forall j :: 0 <= j < |nodes| - 1 ==> ShallowFailedAt(nodes[1..], j) == ShallowFailedAt(nodes, j + 1);
      assert forall j :: 0 < j < |nodes| ==> ShallowFailedAt(nodes, j) == ShallowFailedAt(nodes[1..], j - 1);
      assert ShallowFailedAt(nodes, 0) <==> nodes[0].Block? && !nodes[0].kind.CurlyBlock? && nodes[0].failed;
      var (out, next) := match nodes[0]
        case Leaf(t) => (Some(BodyEmit(t, lh).0), BodyEmit(t, lh).1)
        case Block(k, children, failed) =>
          if k.CurlyBlock? then (Some([Open(k)]), lh)
          else if failed then (None, lh)
          else (Some(Framed(k, children)), lh);
      match out
      case None => None
      case Some(o) =>
        match Body(nodes[1..], next)
        case None => None
        case Some(rest) => Some(o + rest)
  }

  /** One turn of the contents loop for a token that opens no block. */
  lemma BodyLeaf(t: Token, rest: seq<Node>, lh: bool, restOut: seq<Piece>)
    ensures Body(rest, BodyEmit(t, lh).1) == Some(restOut) ==>
      Body([Leaf(t)] + rest, lh) == Some(BodyEmit(t, lh).0 + restOut)
  {
    assert ([Leaf(t)] + rest)[1..] == rest;
  }

  /** One turn of the contents loop for a function, parenthesis or square block. */
  lemma BodyFramed(k: BlockKind, children: seq<Node>, rest: seq<Node>, lh: bool, restOut: seq<Piece>)
    ensures !k.CurlyBlock? && Body(rest, lh) == Some(restOut) ==>
      Body([Block(k, children, false)] + rest, lh) == Some(Framed(k, children) + restOut)
  {
    assert ([Block(k, children, false)] + rest)[1..] == rest;
  }

  /**
   * `regulate_css` of css.rs: while more than whitespace is left, copy the
   * prelude, then write the curly block's regulated contents between `{`
   * and `}`; stop when no curly block follows.
   */
  function Sheet(nodes: seq<Node>): (r: Option<seq<Piece>>)
    ensures Exhausted(nodes) ==> r == Some([])
    decreases |nodes|
  {
    if Exhausted(nodes) then Some([])
    else
      var i := FirstCurly(nodes);
      match Prelude(nodes[..i])
      case None => None
      case Some(pre) =>
        if i == |nodes| then Some(pre)
        else if nodes[i].failed then None
        else
          match Body(nodes[i].children, false)
          case None => None
          case Some(body) =>
            match Sheet(nodes[i + 1..])
            case None => None
            case Some(rest) => Some(pre + [Lit("{")] + body + [Lit("}")] + rest)
  }

  /** Some function, parenthesis or square block directly in the contents fails. */
  predicate ContentsFail(children: seq<Node>)
  {
    exists k :: 0 <= k < |children| && ShallowFailedAt(children, k)
  }

  /**
   * A failure the legacy regulator notices at top-level position `j`: a
   * failing block there, or a curly block there whose contents fail.
   */
  predicate LegacyFailsAt(nodes: seq<Node>, j: int)
    requires 0 <= j < |nodes|
  {
    FailedAt(nodes, j) || (IsCurly(nodes[j]) && ContentsFail(nodes[j].children))
  }

  /** Some block the legacy regulator parses fails; anything deeper is skipped unparsed. */
  predicate LegacyFails(nodes: seq<Node>)
  {
    exists j :: 0 <= j < |nodes| && LegacyFailsAt(nodes, j)
  }

  /** A noticed failure lies in the prelude, at the curly block, or after it. */
  lemma LegacyFailsSplit(nodes: seq<Node>, i: nat)
    requires i < |nodes| && forall j :: 0 <= j < i ==> !IsCurly(nodes[j])
    ensures LegacyFails(nodes) <==>
      (exists j :: 0 <= j < i && FailedAt(nodes[..i], j)) || LegacyFailsAt(nodes, i) || LegacyFails(nodes[i + 1..])
  {
    var pre, rest := nodes[..i], nodes[i + 1..];
    assert forall j :: 0 <= j < i ==> LegacyFailsAt(nodes, j) == FailedAt(pre, j);
    assert forall j :: 0 <= j < i ==> FailedAt(pre, j) == LegacyFailsAt(nodes, j);
    assert forall j :: i < j < |nodes| ==> LegacyFailsAt(nodes, j) == LegacyFailsAt(rest, j - i - 1);
    assert forall j :: 0 <= j < |rest| ==> LegacyFailsAt(rest, j) == LegacyFailsAt(nodes, j + i + 1);
  }

  /** Without a curly block, a noticed failure is a failing top-level block. */
  lemma LegacyFailsFlat(nodes: seq<Node>)
    requires forall j :: 0 <= j < |nodes| ==> !IsCurly(nodes[j])
    ensures LegacyFails(nodes) <==> exists j :: 0 <= j < |nodes| && FailedAt(nodes, j)
  {
    assert forall j :: 0 <= j < |nodes| ==> LegacyFailsAt(nodes, j) == FailedAt(nodes, j);
  }

  /** The legacy regulator returns `None` exactly when a block it parses fails. */
  lemma {:induction false} SheetFailsIff(nodes: seq<Node>)
    ensures Sheet(nodes).None? <==> LegacyFails(nodes)
    decreases |nodes|
  {
    if Exhausted(nodes) {
      assert forall j :: 0 <= j < |nodes| ==> !LegacyFailsAt(nodes, j);
    } else {
      var i := FirstCurly(nodes);
      if i < |nodes| {
        SheetFailsIff(nodes[i + 1..]);
        LegacyFailsSplit(nodes, i);
      } else {
        assert nodes[..i] == nodes;
        LegacyFailsFlat(nodes);
      }
    }
  }

  /** A stylesheet none of whose blocks fails, at any depth, is always regulated. */
  lemma LegacyCompletes(nodes: seq<Node>)
    requires !AnyFailed(nodes)
    ensures Sheet(nodes).Some?
  {
    SheetFailsIff(nodes);
    if LegacyFails(nodes) {
      var j :| 0 <= j < |nodes| && LegacyFailsAt(nodes, j);
      AnyFailedAt(nodes, j);
      if !FailedAt(nodes, j) {
        var k :| 0 <= k < |nodes[j].children| && ShallowFailedAt(nodes[j].children, k);
        AnyFailedAt(nodes[j].children, k);
      }
    }
  }

  /** A block at any position whose own flag or contents fail makes the forest fail. */
  lemma {:induction false} AnyFailedAt(nodes: seq<Node>, j: nat)
    requires j < |nodes| && nodes[j].Block?
    ensures nodes[j].failed || AnyFailed(nodes[j].children) ==> AnyFailed(nodes)
    decreases j
  {
    if j > 0 {
      AnyFailedAt(nodes[1..], j - 1);
    }
  }

  /**
   * One turn of the top-level loop: a prelude free of curly blocks, then a
   * curly block, then the rest of the stylesheet.
   */
  lemma SheetRule(prelude: seq<Node>, children: seq<Node>, rest: seq<Node>, pre: seq<Piece>, body: seq<Piece>, after: seq<Piece>)
    requires forall j :: 0 <= j < |prelude| ==> !IsCurly(prelude[j])
    requires Prelude(prelude) == Some(pre)
    requires Body(children, false) == Some(body)
    requires Sheet(rest) == Some(after)
    ensures Sheet(prelude + [Block(CurlyBlock, children, false)] + rest) == Some(pre + [Lit("{")] + body + [Lit("}")] + after)
  {
    var nodes := prelude + [Block(CurlyBlock, children, false)] + rest;
    var i := |prelude|;
    assert nodes[i..] == [Block(CurlyBlock, children, false)] + rest;
    assert nodes == prelude + nodes[i..];
    FirstCurlyOf(prelude, nodes[i..]);
    assert nodes[..i] == prelude;
    assert nodes[i + 1..] == rest;
    assert !nodes[i].Leaf?;
    assert !Exhausted(nodes);
  }

  lemma {:induction false} FirstCurlyOf(prelude: seq<Node>, tail: seq<Node>)
    requires forall j :: 0 <= j < |prelude| ==> !IsCurly(prelude[j])
    requires |tail| > 0 && IsCurly(tail[0])
    ensures FirstCurly(prelude + tail) == |prelude|
  {
    if |prelude| > 0 {
      assert (prelude + tail)[1..] == prelude[1..] + tail;
      FirstCurlyOf(prelude[1..], tail);
    }
  }

  /** A flat copy does not look inside the blocks it meets: replacing a block's contents changes nothing. */
  lemma FlatIgnoresContents(nodes: seq<Node>, j: nat, other: seq<Node>, f: bool)
    requires j < |nodes| && nodes[j].Block?
    ensures Flat(nodes[j := Block(nodes[j].kind, other, f)]) == Flat(nodes)
  {
  }

  /**
   * On numbers, percentages, dimensions and size keywords the two
   * regulators write the same text and leave the line-height flag alone,
   * provided the newer one is not in font-family context.
   */
  lemma RevisionsAgreeOnValues(t: Token, c: Context, subs: FontSubstitute)
    requires t.Number? || t.Percentage? || t.Dimension? || (t.Ident? && SizeInRem(t.name).Some?)
    requires !c.fontFamily
    ensures BodyEmit(t, c.lineHeight).0 == Emit(t, c, subs).0
    ensures BodyEmit(t, c.lineHeight).1 == c.lineHeight && Emit(t, c, subs).1 == c
  {
    DistinctWords(t);
  }
}
