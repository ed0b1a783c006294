/**
 * The CSS token stream the regulators walk, as the tokenizer yields it
 * (comments already skipped), with every block already matched to its
 * contents: a function, parenthesis, square-bracket or curly-bracket
 * token together with the tokens up to its closer form one `Block` node.
 * The text the regulators emit is a sequence of pieces: literal text, a
 * number printed with two decimals, or a token re-serialised by the
 * tokenizer.
 */
module CssTokens {
  import opened Wrappers

  datatype Token =
    | Ident(name: string)
    | QuotedString(text: string)
    | Number(value: real)
    /** `unit_value` is the percentage divided by 100. */
    | Percentage(unitValue: real)
    /** `int_value` is present when the number was written as an integer. */
    | Dimension(value: real, intValue: Option<int>, unit: string)
    | Semicolon
    | Colon
    | WhiteSpace(text: string)
    /** Any other token (delimiters, hashes, at-keywords, commas, ...). */
    | Other(text: string)

  datatype BlockKind = FunctionBlock(name: string) | ParenBlock | SquareBlock | CurlyBlock

  /**
   * `failed` abstracts a parse error reported when the nested parser
   * returns (the contents not being exhausted), which makes
   * `parse_nested_block` fail.
   */
  datatype Node = Leaf(token: Token) | Block(kind: BlockKind, children: seq<Node>, failed: bool)

  /** Output text: a literal, a `{:.2}` formatted number, a serialised token, a serialised block opener. */
  datatype Piece = Lit(text: string) | Fixed(value: real) | Css(token: Token) | Open(kind: BlockKind)

  /** The character that closes a block of the given kind. */
  function Closer(k: BlockKind): (c: char)
    ensures k.CurlyBlock? <==> c == '}'
    ensures k.SquareBlock? <==> c == ']'
    ensures (k.FunctionBlock? || k.ParenBlock?) <==> c == ')'
  {
    match k
    case FunctionBlock(_) => ')'
    case ParenBlock => ')'
    case SquareBlock => ']'
    case CurlyBlock => '}'
  }

  /** Some block in the forest, at any depth, reports a parse error. */
  predicate AnyFailed(nodes: seq<Node>)
    decreases nodes
  {
    if |nodes| == 0 then false
    else (nodes[0].Block? && (nodes[0].failed || AnyFailed(nodes[0].children))) || AnyFailed(nodes[1..])
  }
}
