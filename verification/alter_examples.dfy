/**
 * Stylesheets of alter.rs's own unit tests, as token forests, and what the
 * recursive regulator writes for them. Each proof walks the forest from its
 * end, one loop turn at a time.
 */
module AlterExamples {
  import opened Wrappers
  import opened CssTokens
  import opened CssValues
  import opened Alter

  const Blank := WhiteSpace(" ")
  const EightPixels := Dimension(8.0, Some(8), "px")

  /** The value part of the block, `8px; `. */
  const PaddingValue: seq<Node> := [Leaf(EightPixels), Leaf(Semicolon), Leaf(Blank)]

  /** The declaration block `{ padding: 8px; }`. */
  const PaddingBody: seq<Node> := [Leaf(Blank), Leaf(Ident("padding")), Leaf(Colon), Leaf(Blank)] + PaddingValue

  /** `p { padding: 8px; }` */
  const PaddingRule: seq<Node> := [Leaf(Ident("p")), Leaf(Blank), Block(CurlyBlock, PaddingBody, false)]

  /** What each token of the rule writes from a fresh context. */
  lemma PaddingTokens(subs: FontSubstitute)
    ensures Emit(Blank, Fresh, subs) == ([Css(Blank)], Fresh)
    ensures Emit(Semicolon, Fresh, subs) == ([Lit(";")], Fresh)
    ensures Emit(EightPixels, Fresh, subs) == ([Fixed(0.5), Lit("rem")], Fresh)
    ensures Emit(Colon, Fresh, subs) == ([Css(Colon)], Fresh)
    ensures Emit(Ident("padding"), Fresh, subs) == ([Lit("padding")], Fresh)
    ensures Emit(Ident("p"), Fresh, subs) == ([Lit("p")], Fresh)
  {
    assert SizeInRem("padding") == None && SizeInRem("p") == None;
  }

  const PaddingValueOut: seq<Piece> := [Fixed(0.5), Lit("rem"), Lit(";"), Css(Blank)]

  const PaddingBodyOut: seq<Piece> := [Css(Blank), Lit("padding"), Css(Colon), Css(Blank)] + PaddingValueOut

  /** The length 8px comes out as 0.50rem. */
  lemma PaddingValueExample(subs: FontSubstitute)
    ensures Transform(PaddingValue, Fresh, subs) == Some(PaddingValueOut)
  {
    var none: seq<Node> := [];
    var nothing: seq<Piece> := [];
    PaddingTokens(subs);
    TransformLeaf(Blank, none, Fresh, subs, nothing);
    var b6, o6 := [Leaf(Blank)] + none, [Css(Blank)] + nothing;
    TransformLeaf(Semicolon, b6, Fresh, subs, o6);
    var b5, o5 := [Leaf(Semicolon)] + b6, [Lit(";")] + o6;
    TransformLeaf(EightPixels, b5, Fresh, subs, o5);
    assert [Leaf(EightPixels)] + b5 == PaddingValue;
    assert [Fixed(0.5), Lit("rem")] + o5 == PaddingValueOut;
  }

  /** Inside the block, 8px comes out as 0.50rem; the property name and the whitespace are copied. */
  lemma PaddingBodyExample(subs: FontSubstitute)
    ensures Transform(PaddingBody, Fresh, subs) == Some(PaddingBodyOut)
  {
    PaddingTokens(subs);
    PaddingValueExample(subs);
    TransformLeaf(Blank, PaddingValue, Fresh, subs, PaddingValueOut);
    var b3, o3 := [Leaf(Blank)] + PaddingValue, [Css(Blank)] + PaddingValueOut;
    TransformLeaf(Colon, b3, Fresh, subs, o3);
    var b2, o2 := [Leaf(Colon)] + b3, [Css(Colon)] + o3;
    TransformLeaf(Ident("padding"), b2, Fresh, subs, o2);
    var b1, o1 := [Leaf(Ident("padding"))] + b2, [Lit("padding")] + o2;
    TransformLeaf(Blank, b1, Fresh, subs, o1);
    assert [Leaf(Blank)] + b1 == PaddingBody;
    assert [Css(Blank)] + o1 == PaddingBodyOut;
  }

  /** `p { padding: 8px; }` becomes `p { padding: 0.50rem; }`. */
  lemma PaddingExample(subs: FontSubstitute)
    ensures RegulateCss(PaddingRule, subs) == Some([Lit("p"), Css(Blank), Open(CurlyBlock)] + PaddingBodyOut + [Lit("}")])
  {
    var none: seq<Node> := [];
    var nothing: seq<Piece> := [];
    PaddingTokens(subs);
    PaddingBodyExample(subs);
    BlockFramed(CurlyBlock, PaddingBody, none, Fresh, subs, PaddingBodyOut, nothing);
    var r2, p2 := [Block(CurlyBlock, PaddingBody, false)] + none, [Open(CurlyBlock)] + PaddingBodyOut + [Lit("}")] + nothing;
    TransformLeaf(Blank, r2, Fresh, subs, p2);
    var r1, p1 := [Leaf(Blank)] + r2, [Css(Blank)] + p2;
    TransformLeaf(Ident("p"), r1, Fresh, subs, p1);
    assert [Leaf(Ident("p"))] + r1 == PaddingRule;
    assert [Lit("p")] + p1 == [Lit("p"), Css(Blank), Open(CurlyBlock)] + PaddingBodyOut + [Lit("}")];
  }

  /** The declaration block `{ font-family: sans-serif }`. */
  const FamilyBody: seq<Node> := [Leaf(Blank), Leaf(Ident("font-family")), Leaf(Colon)] + FamilyValue

  /** Its value part, ` sans-serif `. */
  const FamilyValue: seq<Node> := [Leaf(Blank), Leaf(Ident("sans-serif")), Leaf(Blank)]

  /** `:host { font-family: sans-serif }` */
  const HostRule: seq<Node> := [Leaf(Colon), Leaf(Ident("host")), Leaf(Blank), Block(CurlyBlock, FamilyBody, false)]

  /** ` head {}` */
  const HeadRule: seq<Node> := [Leaf(Blank), Leaf(Ident("head")), Leaf(Blank), Block(CurlyBlock, [], false)]

  /** `:host { font-family: sans-serif } head {}` */
  const HostRules: seq<Node> := HostRule + HeadRule

  const Substitutes: FontSubstitute := map["sans-serif" := "X", "head" := "Y"]

  const Family := Context(false, true)

  /** What each token of the stylesheet writes from a fresh context. */
  lemma FreshTokens()
    ensures Emit(Blank, Fresh, Substitutes) == ([Css(Blank)], Fresh)
    ensures Emit(Colon, Fresh, Substitutes) == ([Css(Colon)], Fresh)
    ensures Emit(Ident("font-family"), Fresh, Substitutes) == ([Lit("font-family")], Family)
    ensures Emit(Ident("head"), Fresh, Substitutes) == ([Lit("head")], Fresh)
    ensures Emit(Ident("host"), Fresh, Substitutes) == ([Lit("host")], Fresh)
  {
    assert SizeInRem("head") == None && SizeInRem("host") == None;
  }

  /** What each token of the declaration value writes once `font-family` is seen. */
  lemma FamilyTokens()
    ensures Emit(Blank, Family, Substitutes) == ([Css(Blank)], Family)
    ensures Emit(Colon, Family, Substitutes) == ([Css(Colon)], Family)
    ensures Emit(Ident("sans-serif"), Family, Substitutes) == ([Lit("X")], Family)
  {
    assert "sans-serif" in Substitutes;
  }

  const FamilyValueOut: seq<Piece> := [Css(Blank), Lit("X"), Css(Blank)]

  const FamilyBodyOut: seq<Piece> := [Css(Blank), Lit("font-family"), Css(Colon)] + FamilyValueOut

  /** After `font-family:`, the listed family name is replaced. */
  lemma FamilyValueExample()
    ensures Transform(FamilyValue, Family, Substitutes) == Some(FamilyValueOut)
  {
    var subs := Substitutes;
    var none: seq<Node> := [];
    var nothing: seq<Piece> := [];
    FamilyTokens();
    TransformLeaf(Blank, none, Family, subs, nothing);
    var b5, o5 := [Leaf(Blank)] + none, [Css(Blank)] + nothing;
    TransformLeaf(Ident("sans-serif"), b5, Family, subs, o5);
    var b4, o4 := [Leaf(Ident("sans-serif"))] + b5, [Lit("X")] + o5;
    TransformLeaf(Blank, b4, Family, subs, o4);
    assert [Leaf(Blank)] + b4 == FamilyValue;
    assert [Css(Blank)] + o4 == FamilyValueOut;
  }

  /** Inside the declaration, the listed family name is replaced. */
  lemma FamilyBodyExample()
    ensures Transform(FamilyBody, Fresh, Substitutes) == Some(FamilyBodyOut)
  {
    var subs := Substitutes;
    FreshTokens();
    FamilyTokens();
    FamilyValueExample();
    TransformLeaf(Colon, FamilyValue, Family, subs, FamilyValueOut);
    var b2, o2 := [Leaf(Colon)] + FamilyValue, [Css(Colon)] + FamilyValueOut;
    TransformLeaf(Ident("font-family"), b2, Fresh, subs, o2);
    var b1, o1 := [Leaf(Ident("font-family"))] + b2, [Lit("font-family")] + o2;
    TransformLeaf(Blank, b1, Fresh, subs, o1);
    assert [Leaf(Blank)] + b1 == FamilyBody;
    assert [Css(Blank)] + o1 == FamilyBodyOut;
  }

  const HeadRuleOut: seq<Piece> := [Css(Blank), Lit("head"), Css(Blank), Open(CurlyBlock), Lit("}")]

  /** The selector `head`, though listed in the table, is outside a font-family declaration and stays. */
  lemma HeadRuleExample()
    ensures Transform(HeadRule, Fresh, Substitutes) == Some(HeadRuleOut)
  {
    var subs := Substitutes;
    var none: seq<Node> := [];
    var nothing: seq<Piece> := [];
    FreshTokens();
    BlockFramed(CurlyBlock, none, none, Fresh, subs, nothing, nothing);
    var r7, p7 := [Block(CurlyBlock, none, false)] + none, [Open(CurlyBlock)] + nothing + [Lit("}")] + nothing;
    TransformLeaf(Blank, r7, Fresh, subs, p7);
    var r6, p6 := [Leaf(Blank)] + r7, [Css(Blank)] + p7;
    TransformLeaf(Ident("head"), r6, Fresh, subs, p6);
    var r5, p5 := [Leaf(Ident("head"))] + r6, [Lit("head")] + p6;
    TransformLeaf(Blank, r5, Fresh, subs, p5);
    assert [Leaf(Blank)] + r5 == HeadRule;
    assert [Css(Blank)] + p5 == HeadRuleOut;
  }

  /** The rule's block, followed by the `head` rule. */
  lemma HostBlockExample()
    ensures Transform([Block(CurlyBlock, FamilyBody, false)] + HeadRule, Fresh, Substitutes) ==
      Some([Open(CurlyBlock)] + FamilyBodyOut + [Lit("}")] + HeadRuleOut)
  {
    FamilyBodyExample();
    HeadRuleExample();
    BlockFramed(CurlyBlock, FamilyBody, HeadRule, Fresh, Substitutes, FamilyBodyOut, HeadRuleOut);
  }

  /**
   * A font name inside a `font-family` declaration is substituted; the
   * selector `head`, though listed, is outside that context and stays.
   */
  lemma FontSubstituteExample()
    ensures RegulateCss(HostRules, Substitutes) ==
      Some([Css(Colon), Lit("host"), Css(Blank), Open(CurlyBlock)] + FamilyBodyOut + [Lit("}")] + HeadRuleOut)
  {
    var subs := Substitutes;
    FreshTokens();
    HostBlockExample();
    var r3, p3 := [Block(CurlyBlock, FamilyBody, false)] + HeadRule, [Open(CurlyBlock)] + FamilyBodyOut + [Lit("}")] + HeadRuleOut;
    TransformLeaf(Blank, r3, Fresh, subs, p3);
    var r2, p2 := [Leaf(Blank)] + r3, [Css(Blank)] + p3;
    TransformLeaf(Ident("host"), r2, Fresh, subs, p2);
    var r1, p1 := [Leaf(Ident("host"))] + r2, [Lit("host")] + p2;
    TransformLeaf(Colon, r1, Fresh, subs, p1);
    assert [Leaf(Colon)] + r1 == HostRules;
    assert [Css(Colon)] + p1 == [Css(Colon), Lit("host"), Css(Blank), Open(CurlyBlock)] + FamilyBodyOut + [Lit("}")] + HeadRuleOut;
  }
}
