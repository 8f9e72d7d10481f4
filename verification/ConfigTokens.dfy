/** The tokens of a configuration file. */
module ConfigTokens {

  datatype TokenType =
    | IDENTIFIER
    | STRING
    | NUMBER
    | ENDPOINT
    | LEFT_BRACE
    | RIGHT_BRACE
    | SEMICOLON
    | UNKNOWN
    | END_OF_FILE

  datatype Token = Token(literal: string, kind: TokenType)

  const EOF := Token("", END_OF_FILE)

  /** The types the parser takes as a name or an argument. */
  predicate IsValue(t: Token) {
    t.kind.IDENTIFIER? || t.kind.STRING? || t.kind.NUMBER?
  }
}
