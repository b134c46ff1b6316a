/** Token kinds, character classes and the reserved-word tables of the Ada lexer. */
module AdaTokens {
  import opened Common

  datatype AdaStandard = Ada83 | Ada95 | Ada2005 | Ada2012 | Ada2022
  {
    function Rank(): nat {
      match this
      case Ada83 => 0
      case Ada95 => 1
      case Ada2005 => 2
      case Ada2012 => 3
      case Ada2022 => 4
    }

    predicate AtLeast(other: AdaStandard) {
      Rank() >= other.Rank()
    }
  }

  /** One `Keyword(w)` stands for the source's one constructor per reserved word. */
  datatype TokenKind =
    | Keyword(word: string)
    | Identifier(name: string)
    | IntLiteral(text: string)
    | RealLiteral(text: string)
    | BasedLiteral(text: string)
    | CharLiteral(ch: char)
    | StringLiteral(content: string)
    | Comment(content: string)
    | LParen | RParen | Semicolon | Comma | Colon | Assign | Arrow | DotDot | Tick | Dot | Box
    | Plus | Minus | Star | Slash | Ampersand | DoubleStar | Eq | Neq | Lt | Le | Gt | Ge
    | Error(message: string)
    | Eof

  /** `start` and `end` are character offsets; see `ByteOffset` for the byte offsets of the source. */
  datatype Token = Token(kind: TokenKind, effectiveKind: TokenKind, start: nat, end: nat, line: nat, col: nat)

  // ---------------------------------------------------------------- characters

  /** `char::is_whitespace`. */
  predicate IsWhitespace(c: char) { IsWhiteSpace(c as int) }

  predicate IsDigit(c: char) { '0' <= c <= '9' }

  predicate IsLetter(c: char) { 'a' <= c <= 'z' || 'A' <= c <= 'Z' }

  predicate IsIdentifierContinue(c: char) { IsLetter(c) || IsDigit(c) || c == '_' }

  predicate IsNumeralChar(c: char) { IsDigit(c) || c == '_' }

  predicate IsResyncPunctuation(c: char) {
    c in {'(', ')', ';', ',', ':', '=', '.', '<', '>', '/', '*', '+', '-', '&', '\'', '"'}
  }

  predicate NotNewline(c: char) { c != '\n' }

  predicate IsWordish(c: char) { !IsWhitespace(c) && !IsResyncPunctuation(c) }

  /** What a based literal may hold between its two `#`. */
  predicate IsBasedDigit(c: char) { c != '#' && IsWordish(c) }

  function LowerChar(c: char): char {
    if 'A' <= c <= 'Z' then ((c as int) + 32) as char else c
  }

  function Lower(s: string): (r: string)
    ensures |r| == |s|
    ensures forall k | 0 <= k < |s| :: r[k] == LowerChar(s[k])
  {
    seq(|s|, k requires 0 <= k < |s| => LowerChar(s[k]))
  }

  // ------------------------------------------------------------ reserved words

  /** Which words `keyword_or_identifier` turns into keywords. */
  predicate IsReserved(word: string, d: AdaStandard) {
    match word
    case "abort" => true
    case "abs" => true
    case "accept" => true
    case "access" => true
    case "all" => true
    case "and" => true
    case "array" => true
    case "at" => true
    case "begin" => true
    case "body" => true
    case "case" => true
    case "constant" => true
    case "declare" => true
    case "delay" => true
    case "delta" => true
    case "digits" => true
    case "do" => true
    case "else" => true
    case "elsif" => true
    case "end" => true
    case "entry" => true
    case "exception" => true
    case "exit" => true
    case "for" => true
    case "function" => true
    case "generic" => true
    case "goto" => true
    case "if" => true
    case "in" => true
    case "is" => true
    case "limited" => true
    case "loop" => true
    case "mod" => true
    case "new" => true
    case "not" => true
    case "null" => true
    case "of" => true
    case "or" => true
    case "others" => true
    case "out" => true
    case "package" => true
    case "pragma" => true
    case "private" => true
    case "procedure" => true
    case "protected" => true
    case "raise" => true
    case "range" => true
    case "record" => true
    case "rem" => true
    case "renames" => true
    case "requeue" => true
    case "return" => true
    case "reverse" => true
    case "select" => true
    case "separate" => true
    case "subtype" => true
    case "tagged" => true
    case "task" => true
    case "terminate" => true
    case "then" => true
    case "type" => true
    case "until" => true
    case "use" => true
    case "when" => true
    case "while" => true
    case "with" => true
    case "xor" => true
    case "abstract" => true
    case "aliased" => true
    case "interface" => d.AtLeast(Ada2005)
    case "overriding" => d.AtLeast(Ada2005)
    case "synchronized" => d.AtLeast(Ada2005)
    case "some" => d.AtLeast(Ada2012)
    case "parallel" => d.AtLeast(Ada2022)
    case _ => false
  }

  /** A reserved-word table; the scanning functions take any table, the lexer that of its dialect. */
  type WordTable = string -> bool

  function ReservedWords(d: AdaStandard): WordTable {
    w => IsReserved(w, d)
  }

  /** The words whose reservation depends on the dialect. */
  predicate IsGatedWord(word: string) {
    word == "interface" || word == "overriding" || word == "synchronized" || word == "some" || word == "parallel"
  }

  function KeywordOrIdentifier(word: string, reserved: WordTable): TokenKind {
    if reserved(word) then Keyword(word) else Identifier(word)
  }

  /** After these four kinds an apostrophe is always an attribute or qualification mark. */
  predicate IsAttributePrefix(last: Option<TokenKind>) {
    last.Some? && (last.value.Identifier? || last.value.RParen? || last.value == Keyword("all") || last.value.Tick?)
  }
}
