/** The markdown-it tokens that the Notion converter walks. */
module Tokens {
  import opened Wrappers

  /**
   * A markdown-it token: its type, its HTML tag (`h2`, `td`, ...), its text content, the info
   * string of a fence, the children of an `inline` token, and the `href` / `src` attributes as
   * `attrGet` returns them (`None` when the attribute is absent).
   */
  datatype Token = Token(kind: string, tag: string, content: string, info: string,
                         children: seq<Token>, href: Option<string>, src: Option<string>)

  /** The Python exceptions the converter can raise on a token list; each one makes it return `[]`. */
  datatype Failure =
    | IndexError  // `split()[0]` of a blank fence info string, `tag[1]` of a short heading tag
    | ValueError  // `int(tag[1])` of a heading tag whose second character is not a digit
    | NameError   // `current_row` used before any `tr_open` assigned it

  /** A token that carries nothing but its type. */
  function Bare(kind: string): Token
  {
    Token(kind, [], [], [], [], None, None)
  }

  /** An `inline` token with the given raw content and children. */
  function Inline(content: string, children: seq<Token>): Token
  {
    Token("inline", [], content, [], children, None, None)
  }

  /** A `text` child token. */
  function TextToken(content: string): Token
  {
    Token("text", [], content, [], [], None, None)
  }
}
