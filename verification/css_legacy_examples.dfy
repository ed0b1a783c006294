/**
 * Stylesheets run through the legacy regulator of css.rs, as token
 * forests. The first is a rule of its own unit test; the second shows
 * what the missing recursion costs, next to the recursive regulator.
 */
module CssLegacyExamples {
  import opened Wrappers
  import opened CssTokens
  import opened CssValues
  import opened Alter
  import opened CssLegacy

  const Blank := WhiteSpace(" ")
  const EightPixels := Dimension(8.0, Some(8), "px")

  /** `8px; ` */
  const PaddingValue: seq<Node> := [Leaf(EightPixels), Leaf(Semicolon), Leaf(Blank)]

  /** `{ padding: 8px; }` */
  const PaddingBody: seq<Node> := [Leaf(Blank), Leaf(Ident("padding")), Leaf(Colon), Leaf(Blank)] + PaddingValue

  const PaddingValueOut: seq<Piece> := [Fixed(0.5), Lit("rem"), Lit(";"), Css(Blank)]

  const PaddingBodyOut: seq<Piece> := [Css(Blank), Css(Ident("padding")), Css(Colon), Css(Blank)] + PaddingValueOut

  /** What each token of the block writes outside line-height context. */
  lemma LegacyPaddingTokens()
    ensures BodyEmit(Blank, false) == ([Css(Blank)], false)
    ensures BodyEmit(Semicolon, false) == ([Lit(";")], false)
    ensures BodyEmit(EightPixels, false) == ([Fixed(0.5), Lit("rem")], false)
    ensures BodyEmit(Colon, false) == ([Css(Colon)], false)
    ensures BodyEmit(Ident("padding"), false) == ([Css(Ident("padding"))], false)
  {
    assert SizeInRem("padding") == None;
  }

  /** The length 8px comes out as 0.50rem. */
  lemma LegacyPaddingValue()
    ensures Body(PaddingValue, false) == Some(PaddingValueOut)
  {
    var none: seq<Node> := [];
    var nothing: seq<Piece> := [];
    LegacyPaddingTokens();
    BodyLeaf(Blank, none, false, nothing);
    var b6, o6 := [Leaf(Blank)] + none, [Css(Blank)] + nothing;
    BodyLeaf(Semicolon, b6, false, o6);
    var b5, o5 := [Leaf(Semicolon)] + b6, [Lit(";")] + o6;
    BodyLeaf(EightPixels, b5, false, o5);
    assert [Leaf(EightPixels)] + b5 == PaddingValue;
    assert [Fixed(0.5), Lit("rem")] + o5 == PaddingValueOut;
  }

  /** Inside the block, 8px comes out as 0.50rem and whitespace is copied. */
  lemma LegacyPaddingBody()
    ensures Body(PaddingBody, false) == Some(PaddingBodyOut)
  {
    LegacyPaddingTokens();
    LegacyPaddingValue();
    BodyLeaf(Blank, PaddingValue, false, PaddingValueOut);
    var b3, o3 := [Leaf(Blank)] + PaddingValue, [Css(Blank)] + PaddingValueOut;
    BodyLeaf(Colon, b3, false, o3);
    var b2, o2 := [Leaf(Colon)] + b3, [Css(Colon)] + o3;
    BodyLeaf(Ident("padding"), b2, false, o2);
    var b1, o1 := [Leaf(Ident("padding"))] + b2, [Css(Ident("padding"))] + o2;
    BodyLeaf(Blank, b1, false, o1);
    assert [Leaf(Blank)] + b1 == PaddingBody;
    assert [Css(Blank)] + o1 == PaddingBodyOut;
  }

  /**
   * `p { padding: 8px; }`: the length becomes rem, and the whitespace the
   * tokenizer reports is written back, around the braces included.
   */
  lemma LegacyPaddingExample()
    ensures Sheet([Leaf(Ident("p")), Leaf(Blank), Block(CurlyBlock, PaddingBody, false)]) ==
      Some([Css(Ident("p")), Css(Blank), Lit("{")] + PaddingBodyOut + [Lit("}")])
  {
    var prelude := [Leaf(Ident("p")), Leaf(Blank)];
    var none: seq<Node> := [];
    var nothing: seq<Piece> := [];
    assert Flat(prelude) == [Css(Ident("p")), Css(Blank)];
    LegacyPaddingBody();
    SheetRule(prelude, PaddingBody, none, [Css(Ident("p")), Css(Blank)], PaddingBodyOut, nothing);
    assert prelude + [Block(CurlyBlock, PaddingBody, false)] + none == [Leaf(Ident("p")), Leaf(Blank), Block(CurlyBlock, PaddingBody, false)];
    assert [Css(Ident("p")), Css(Blank)] + [Lit("{")] + PaddingBodyOut + [Lit("}")] + nothing ==
      [Css(Ident("p")), Css(Blank), Lit("{")] + PaddingBodyOut + [Lit("}")];
  }

  /** `g(x)` */
  const InnerCall := Block(FunctionBlock("g"), [Leaf(Ident("x"))], false)

  /** `{b:f(g(x))}` */
  const DeepBody: seq<Node> := [Leaf(Ident("b")), Leaf(Colon), Block(FunctionBlock("f"), [InnerCall], false)]

  /** `a{b:f(g(x))}` */
  const DeepRule: seq<Node> := [Leaf(Ident("a")), Block(CurlyBlock, DeepBody, false)]

  /** What the identifiers and the colon of the rule write, in both regulators. */
  lemma DeepTokens()
    ensures Emit(Ident("a"), Fresh, map[]) == ([Lit("a")], Fresh)
    ensures Emit(Ident("b"), Fresh, map[]) == ([Lit("b")], Fresh)
    ensures Emit(Ident("x"), Fresh, map[]) == ([Lit("x")], Fresh)
    ensures Emit(Colon, Fresh, map[]) == ([Css(Colon)], Fresh)
    ensures BodyEmit(Ident("b"), false) == ([Css(Ident("b"))], false)
    ensures BodyEmit(Colon, false) == ([Css(Colon)], false)
  {
    assert SizeInRem("x") == None && SizeInRem("b") == None && SizeInRem("a") == None;
  }

  /** `f(g()`: the legacy regulator copies the inner call's opener only. */
  const DroppedCall: seq<Piece> := [Open(FunctionBlock("f")), Open(FunctionBlock("g")), Lit(")")]

  /** Inside the block, `b:f(g(x))` comes out as `b:f(g()`. */
  lemma DeepBodyDropped()
    ensures Body(DeepBody, false) == Some([Css(Ident("b")), Css(Colon)] + DroppedCall)
  {
    var none: seq<Node> := [];
    var nothing: seq<Piece> := [];
    DeepTokens();
    assert Flat([InnerCall]) == [Open(FunctionBlock("g"))];
    BodyFramed(FunctionBlock("f"), [InnerCall], none, false, nothing);
    var b2, o2 := [Block(FunctionBlock("f"), [InnerCall], false)] + none, Framed(FunctionBlock("f"), [InnerCall]) + nothing;
    BodyLeaf(Colon, b2, false, o2);
    var b1, o1 := [Leaf(Colon)] + b2, [Css(Colon)] + o2;
    BodyLeaf(Ident("b"), b1, false, o1);
    assert [Leaf(Ident("b"))] + b1 == DeepBody;
    assert [Css(Ident("b"))] + o1 == [Css(Ident("b")), Css(Colon)] + DroppedCall;
  }

  /** The legacy regulator writes `a{b:f(g()}`: the inner call loses its argument and its closer. */
  lemma DeepContentsDropped()
    ensures Sheet(DeepRule) == Some([Css(Ident("a")), Lit("{"), Css(Ident("b")), Css(Colon)] + DroppedCall + [Lit("}")])
  {
    var none: seq<Node> := [];
    var nothing: seq<Piece> := [];
    var prelude := [Leaf(Ident("a"))];
    var body := [Css(Ident("b")), Css(Colon)] + DroppedCall;
    DeepBodyDropped();
    assert Flat(prelude) == [Css(Ident("a"))];
    SheetRule(prelude, DeepBody, none, [Css(Ident("a"))], body, nothing);
    assert prelude + [Block(CurlyBlock, DeepBody, false)] + none == DeepRule;
    assert [Css(Ident("a"))] + [Lit("{")] + body + [Lit("}")] + nothing ==
      [Css(Ident("a")), Lit("{"), Css(Ident("b")), Css(Colon)] + DroppedCall + [Lit("}")];
  }

  /** `g(x)` written back whole. */
  const KeptCall: seq<Piece> := [Open(FunctionBlock("g")), Lit("x"), Lit(")")]

  /** The recursive regulator writes `g(x)` back whole. */
  lemma InnerCallKept()
    ensures Transform([InnerCall], Fresh, map[]) == Some(KeptCall)
  {
    var subs: FontSubstitute := map[];
    var none: seq<Node> := [];
    var nothing: seq<Piece> := [];
    DeepTokens();
    TransformLeaf(Ident("x"), none, Fresh, subs, nothing);
    assert [Leaf(Ident("x"))] + none == [Leaf(Ident("x"))];
    BlockFramed(FunctionBlock("g"), [Leaf(Ident("x"))], none, Fresh, subs, [Lit("x")] + nothing, nothing);
    assert [InnerCall] + none == [InnerCall];
    assert [Open(FunctionBlock("g"))] + ([Lit("x")] + nothing) + [Lit([Closer(FunctionBlock("g"))])] + nothing == KeptCall;
  }

  /** `b:f(g(x))` written back whole. */
  const KeptBody: seq<Piece> := [Lit("b"), Css(Colon), Open(FunctionBlock("f"))] + KeptCall + [Lit(")")]

  /** The declaration `b:f(g(x))` written back whole. */
  lemma DeepBodyKept()
    ensures Transform(DeepBody, Fresh, map[]) == Some(KeptBody)
  {
    var subs: FontSubstitute := map[];
    var none: seq<Node> := [];
    var nothing: seq<Piece> := [];
    DeepTokens();
    InnerCallKept();
    BlockFramed(FunctionBlock("f"), [InnerCall], none, Fresh, subs, KeptCall, nothing);
    var b2, o2 := [Block(FunctionBlock("f"), [InnerCall], false)] + none, [Open(FunctionBlock("f"))] + KeptCall + [Lit(")")] + nothing;
    TransformLeaf(Colon, b2, Fresh, subs, o2);
    var b1, o1 := [Leaf(Colon)] + b2, [Css(Colon)] + o2;
    TransformLeaf(Ident("b"), b1, Fresh, subs, o1);
    assert [Leaf(Ident("b"))] + b1 == DeepBody;
    assert [Lit("b")] + o1 == KeptBody;
  }

  /** The recursive regulator writes the same rule back whole: `a{b:f(g(x))}`. */
  lemma DeepContentsKept()
    ensures RegulateCss(DeepRule, map[]) == Some([Lit("a"), Open(CurlyBlock)] + KeptBody + [Lit("}")])
  {
    var subs: FontSubstitute := map[];
    var none: seq<Node> := [];
    var nothing: seq<Piece> := [];
    DeepTokens();
    DeepBodyKept();
    BlockFramed(CurlyBlock, DeepBody, none, Fresh, subs, KeptBody, nothing);
    var r1, p1 := [Block(CurlyBlock, DeepBody, false)] + none, [Open(CurlyBlock)] + KeptBody + [Lit("}")] + nothing;
    TransformLeaf(Ident("a"), r1, Fresh, subs, p1);
    assert [Leaf(Ident("a"))] + r1 == DeepRule;
    assert [Lit("a")] + p1 == [Lit("a"), Open(CurlyBlock)] + KeptBody + [Lit("}")];
  }
}
