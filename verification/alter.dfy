/**
 * The recursive CSS regulator (`transform_css` / `regulate_css` of
 * alter.rs): it walks the token forest once, carrying two context flags,
 * and rewrites font sizes to rem, line heights to multiples of a scale
 * variable and font families through a substitution table.
 */
module Alter {
  import opened Wrappers
  import opened Ascii
  import opened CssTokens
  import opened CssValues

  /** `FontSubstitute`: font name to replacement. */
  type FontSubstitute = map<string, string>

  /** The `expect_line_height` and `expect_font_family` flags. */
  datatype Context = Context(lineHeight: bool, fontFamily: bool)

  const Fresh := Context(false, false)

  /** An identifier token naming `word`, ignoring ASCII case. */
  predicate IsWord(t: Token, word: string)
  {
    t.Ident? && EqIgnoreCase(t.name, word)
  }

  /** A dimension written as the integer 0. */
  predicate IsZero(t: Token)
  {
    t.Dimension? && t.intValue == Some(0)
  }

  /** The text the substitution table is consulted with: an identifier's name or a string's contents. */
  function FontName(t: Token): Option<string>
  {
    match t
    case Ident(n) => Some(n)
    case QuotedString(s) => Some(s)
    case _ => None
  }

  /** The line-height value a token carries, if it is one `regulated_line_height` accepts. */
  function LineHeightOperand(t: Token): Option<LineHeightValue>
  {
    match t
    case Ident(n) => if EqIgnoreCase(n, "normal") then Some(LhNormal) else None
    case Number(v) => Some(LhNumber(v))
    case Percentage(u) => Some(LhPercentage(u))
    case Dimension(v, _, u) => Some(LhLength(v, UnitBuffer(u)))
    case _ => None
  }

  /** The words the transform reacts to never coincide, ignoring case. */
  lemma DistinctWords(t: Token)
    ensures !(IsWord(t, "line-height") && IsWord(t, "font-family"))
    ensures t.Ident? && SizeInRem(t.name).Some? ==>
      !IsWord(t, "normal") && !IsWord(t, "line-height") && !IsWord(t, "font-family")
  {
    if t.Ident? && |t.name| > 0 {
      var first := Lower(t.name[0]);
      assert IsWord(t, "line-height") ==> first == 'l';
      assert IsWord(t, "font-family") ==> first == 'f';
      assert IsWord(t, "normal") ==> first == 'n';
      assert t.name == "medium" ==> first == 'm';
    }
  }

  /**
   * One turn of the loop of `transform_css` for a token that opens no
   * block: what it writes and the flags after it, arms tried in source order.
   */
  function Emit(t: Token, c: Context, subs: FontSubstitute): (r: (seq<Piece>, Context))
    // `;` is written and clears both flags.
    ensures t.Semicolon? ==> r == ([Lit(";")], Fresh)
    // `line-height` / `font-family` are written in lower case and set their flag.
    ensures IsWord(t, "line-height") ==> r == ([Lit("line-height")], c.(lineHeight := true))
    ensures IsWord(t, "font-family") ==> r == ([Lit("font-family")], c.(fontFamily := true))
    // The flags change on those three tokens only.
    ensures r.1 != c ==> t.Semicolon? || IsWord(t, "line-height") || IsWord(t, "font-family")
    // An integer zero dimension is written `0` in every context.
    ensures IsZero(t) ==> r.0 == [Lit("0")]
    // In line-height context the value forms of `regulated_line_height` are used.
    ensures c.lineHeight && !IsZero(t) && !IsWord(t, "line-height") && !IsWord(t, "font-family") && LineHeightOperand(t).Some? ==>
      r.0 == RegulatedLineHeight(LineHeightOperand(t).value)
    // Outside it, absolute lengths become rem.
    ensures !c.lineHeight && t.Dimension? && !IsZero(t) && AbsLengthInRemAsWritten(t.value, t.unit).Some? ==>
      r.0 == Rem(AbsLengthInRemAsWritten(t.value, t.unit).value)
    // In font-family context a listed name is replaced by its substitute.
    ensures (c.fontFamily && FontName(t).Some? && FontName(t).value in subs
      && !IsWord(t, "line-height") && !IsWord(t, "font-family") && !(c.lineHeight && IsWord(t, "normal"))) ==>
      r.0 == [Lit(subs[FontName(t).value])]
    // Outside font-family context the table is never consulted.
    ensures !c.fontFamily ==> r == Emit(t, c, map[])
    // Size keywords become rem outside font-family context.
    ensures !c.fontFamily && t.Ident? && SizeInRem(t.name).Some? ==> r.0 == Rem(SizeInRem(t.name).value)
  {
    DistinctWords(t);
    if t.Semicolon? then ([Lit(";")], Fresh)
    else if IsWord(t, "line-height") then ([Lit("line-height")], c.(lineHeight := true))
      else if IsWord(t, "font-family") then ([Lit("font-family")], c.(fontFamily := true))
      else if IsZero(t) then ([Lit("0")], c)
      else if c.lineHeight && LineHeightOperand(t).Some? then (RegulatedLineHeight(LineHeightOperand(t).value), c)
      else if t.Dimension? then
        (match AbsLengthInRemAsWritten(t.value, t.unit)
         case Some(rem) => Rem(rem)
         case None => [Css(t)], c)
      else if c.fontFamily && FontName(t).Some? then
        (if FontName(t).value in subs then [Lit(subs[FontName(t).value])] else [Css(t)], c)
      else if t.Ident? then
        (match SizeInRem(t.name)
         case Some(rem) => Rem(rem)
         case None => [Lit(t.name)], c)
      else ([Css(t)], c)
  }

  /** Counterexample, as written: the regulator writes `40Q` (one centimetre) exactly as it writes `1mm`. */
  lemma FortyQuartersEmitted(subs: FontSubstitute)
    ensures Emit(Dimension(40.0, Some(40), "Q"), Fresh, subs).0 == Emit(Dimension(1.0, Some(1), "mm"), Fresh, subs).0
    ensures Emit(Dimension(40.0, Some(40), "Q"), Fresh, subs).0 != Emit(Dimension(1.0, Some(1), "cm"), Fresh, subs).0
  {
    FortyQuartersAsWritten();
  }

  /** The flags after a run of tokens at one nesting level, starting from `c`. */
  function FlagsAfter(ts: seq<Token>, c: Context, subs: FontSubstitute): Context
    decreases |ts|
  {
    if |ts| == 0 then c else FlagsAfter(ts[1..], Emit(ts[0], c, subs).1, subs)
  }

  /**
   * Reference: `word` occurs after the last `;` of `ts`; with no `;` in
   * `ts`, it occurs in `ts` or `init` says it was seen before.
   */
  predicate SeenSinceSemicolon(ts: seq<Token>, word: string, init: bool)
    decreases |ts|
  {
    if |ts| == 0 then init
    else
      var t := ts[|ts| - 1];
      !t.Semicolon? && (IsWord(t, word) || SeenSinceSemicolon(ts[..|ts| - 1], word, init))
  }

  lemma {:induction false} FlagsAfterSnoc(ts: seq<Token>, t: Token, c: Context, subs: FontSubstitute)
    ensures FlagsAfter(ts + [t], c, subs) == Emit(t, FlagsAfter(ts, c, subs), subs).1
    decreases |ts|
  {
    if |ts| > 0 {
      assert (ts + [t])[1..] == ts[1..] + [t];
      FlagsAfterSnoc(ts[1..], t, Emit(ts[0], c, subs).1, subs);
    }
  }

  /**
   * What the flags mean: each is set exactly when its word has appeared in
   * the current declaration, that is, since the last `;` at this level.
   */
  lemma {:induction false} FlagsTrackDeclaration(ts: seq<Token>, c: Context, subs: FontSubstitute)
    ensures FlagsAfter(ts, c, subs) ==
      Context(SeenSinceSemicolon(ts, "line-height", c.lineHeight), SeenSinceSemicolon(ts, "font-family", c.fontFamily))
    decreases |ts|
  {
    if |ts| > 0 {
      var init, t := ts[..|ts| - 1], ts[|ts| - 1];
      assert ts == init + [t];
      FlagsAfterSnoc(init, t, c, subs);
      FlagsTrackDeclaration(init, c, subs);
      DistinctWords(t);
    }
  }

  /**
   * `transform_css` over a token forest. A block writes its opener, its
   * contents transformed with both flags cleared, and its closer; the
   * enclosing level resumes with its own flags. A failing nested parse
   * fails the whole transform.
   */
  function Transform(nodes: seq<Node>, c: Context, subs: FontSubstitute): (r: Option<seq<Piece>>)
    decreases nodes
  {
    if |nodes| == 0 then Some([])
    else
      match nodes[0]
      case Leaf(t) =>
        var (out, next) := Emit(t, c, subs);
        (match Transform(nodes[1..], next, subs)
         case None => None
         case Some(rest) => Some(out + rest))
      case Block(k, children, failed) =>
        if failed then None
        else
          match Transform(children, Fresh, subs)
          case None => None
          case Some(inner) =>
            match Transform(nodes[1..], c, subs)
            case None => None
            case Some(rest) => Some([Open(k)] + inner + [Lit([Closer(k)])] + rest)
  }

  /** One turn of the loop: a leaf's output followed by the rest, transformed with the flags it leaves. */
  lemma TransformLeaf(t: Token, rest: seq<Node>, c: Context, subs: FontSubstitute, restOut: seq<Piece>)
    ensures Transform(rest, Emit(t, c, subs).1, subs) == Some(restOut) ==>
      Transform([Leaf(t)] + rest, c, subs) == Some(Emit(t, c, subs).0 + restOut)
  {
    assert ([Leaf(t)] + rest)[1..] == rest;
  }

  /** `regulate_css` of alter.rs: the transform from a fresh context; `None` when it fails. */
  function RegulateCss(nodes: seq<Node>, subs: FontSubstitute): Option<seq<Piece>>
  {
    Transform(nodes, Fresh, subs)
  }

  /** The transform fails exactly when some block, at any depth, fails to parse. */
  lemma {:induction false} TransformFailsIffAnyFailed(nodes: seq<Node>, c: Context, subs: FontSubstitute)
    ensures Transform(nodes, c, subs).None? <==> AnyFailed(nodes)
    decreases nodes
  {
    if |nodes| > 0 {
      match nodes[0]
      case Leaf(t) =>
        TransformFailsIffAnyFailed(nodes[1..], Emit(t, c, subs).1, subs);
      case Block(k, children, failed) =>
        TransformFailsIffAnyFailed(children, Fresh, subs);
        TransformFailsIffAnyFailed(nodes[1..], c, subs);
    }
  }

  /** `regulate_css` returns `None` exactly when the token stream holds a failing block. */
  lemma RegulateCssFailsIffAnyFailed(nodes: seq<Node>, subs: FontSubstitute)
    ensures RegulateCss(nodes, subs).None? <==> AnyFailed(nodes)
  {
    TransformFailsIffAnyFailed(nodes, Fresh, subs);
  }

  /**
   * A block is written framed by its opener and the matching closer, its
   * contents are transformed with both flags cleared, and what follows it
   * sees the flags from before the block.
   */
  lemma BlockFramed(k: BlockKind, children: seq<Node>, rest: seq<Node>, c: Context, subs: FontSubstitute,
                    inner: seq<Piece>, after: seq<Piece>)
    ensures Transform(children, Fresh, subs) == Some(inner) && Transform(rest, c, subs) == Some(after) ==>
      Transform([Block(k, children, false)] + rest, c, subs) == Some([Open(k)] + inner + [Lit([Closer(k)])] + after)
  {
    assert ([Block(k, children, false)] + rest)[1..] == rest;
  }

  /** A token the transform writes back unchanged from a fresh context. */
  predicate InertToken(t: Token)
  {
    match t
    case Ident(n) =>
      !EqIgnoreCase(n, "line-height") && !EqIgnoreCase(n, "font-family") && SizeInRem(n).None?
    case Dimension(v, iv, u) => iv != Some(0) && AbsLengthInRemAsWritten(v, u).None?
    case _ => true
  }

  /** Every token of the forest, at any depth, is inert, and no block fails. */
  predicate Inert(nodes: seq<Node>)
    decreases nodes
  {
    if |nodes| == 0 then true
    else
      (match nodes[0]
       case Leaf(t) => InertToken(t)
       case Block(_, children, failed) => !failed && Inert(children))
      && Inert(nodes[1..])
  }

  /** A token written back as the stylesheet had it: identifiers by name, `;` as itself. */
  function Echo(t: Token): Piece
  {
    match t
    case Ident(n) => Lit(n)
    case Semicolon => Lit(";")
    case _ => Css(t)
  }

  /** The forest written back verbatim, every block closed by its matching closer. */
  function Verbatim(nodes: seq<Node>): seq<Piece>
    decreases nodes
  {
    if |nodes| == 0 then []
    else
      (match nodes[0]
       case Leaf(t) => [Echo(t)]
       case Block(k, children, _) => [Open(k)] + Verbatim(children) + [Lit([Closer(k)])])
      + Verbatim(nodes[1..])
  }

  /** A stylesheet with nothing to regulate round-trips unchanged, nesting included. */
  lemma {:induction false} InertRoundTrip(nodes: seq<Node>, subs: FontSubstitute)
    requires Inert(nodes)
    ensures Transform(nodes, Fresh, subs) == Some(Verbatim(nodes))
    decreases nodes
  {
    if |nodes| > 0 {
      match nodes[0]
      case Leaf(t) =>
        assert Emit(t, Fresh, subs) == ([Echo(t)], Fresh);
        InertRoundTrip(nodes[1..], subs);
      case Block(k, children, failed) =>
        InertRoundTrip(children, subs);
        InertRoundTrip(nodes[1..], subs);
    }
  }
}
