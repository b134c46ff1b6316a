/** What one scan of the Ada lexer reads, as functions of the source and an offset into it. */
module AdaScan {
  import opened Common
  import opened AdaTokens

  /** Where the lexer stands: `col` can run ahead of `offset` after an exponent rollback. */
  datatype Pos = Pos(offset: nat, line: nat, col: nat)

  /** One scanned token: its text ends at `end`, the scanner had bumped as far as `reach`. */
  datatype Scanned = Scanned(kind: TokenKind, end: nat, reach: nat)

  const START := Pos(0, 1, 1)

  // ------------------------------------------------------------------- bumping

  function BumpOne(s: string, p: Pos): Pos
    requires p.offset < |s|
  {
    if s[p.offset] == '\n' then Pos(p.offset + 1, p.line + 1, 1) else Pos(p.offset + 1, p.line, p.col + 1)
  }

  function BumpTo(s: string, p: Pos, j: nat): (r: Pos)
    requires p.offset <= j <= |s|
    ensures r.offset == j
  {
    if j == p.offset then p else BumpOne(s, BumpTo(s, p, j - 1))
  }

  lemma {:induction false} BumpToCompose(s: string, p: Pos, j: nat, k: nat)
    requires p.offset <= j <= k <= |s|
    ensures BumpTo(s, BumpTo(s, p, j), k) == BumpTo(s, p, k)
  {
    if j < k {
      BumpToCompose(s, p, j, k - 1);
    }
  }

  // ---------------------------------------------------------------------- runs

  function SkipWhile(s: string, i: nat, p: char -> bool): (j: nat)
    requires i <= |s|
    ensures i <= j <= |s|
    ensures forall k | i <= k < j :: p(s[k])
    ensures j < |s| ==> !p(s[j])
    decreases |s| - i
  {
    if i < |s| && p(s[i]) then SkipWhile(s, i + 1, p) else i
  }

  /** A run is where `p` holds up to a place where it does not. */
  lemma {:induction false} SkipWhileIs(s: string, i: nat, p: char -> bool, j: nat)
    requires i <= j <= |s| && (forall k | i <= k < j :: p(s[k])) && (j < |s| ==> !p(s[j]))
    ensures SkipWhile(s, i, p) == j
    decreases j - i
  {
    if i < j {
      SkipWhileIs(s, i + 1, p, j);
    }
  }

  // ------------------------------------------------------------------- numbers

  datatype ExponentScan = ExponentScan(present: bool, end: nat, reach: nat)

  predicate IsExponentLetter(s: string, i: nat) {
    i < |s| && (s[i] == 'e' || s[i] == 'E')
  }

  function ExponentDigits(s: string, i: nat): (j: nat)
    requires i < |s|
    ensures i < j <= |s| && j <= i + 2
  {
    if i + 1 < |s| && (s[i + 1] == '+' || s[i + 1] == '-') then i + 2 else i + 1
  }

  /** An exponent is taken only when it has digits; otherwise `end` falls back to where it began. */
  function ScanExponent(s: string, i: nat): (r: ExponentScan)
    requires i <= |s|
    ensures i <= r.end <= r.reach <= |s|
    ensures r.present ==> i < r.end == r.reach
    ensures !r.present ==> r.end == i && r.reach <= i + 2
  {
    if IsExponentLetter(s, i) then
      var digits := ExponentDigits(s, i);
      var end := SkipWhile(s, digits, IsNumeralChar);
      if end == digits then ExponentScan(false, i, digits) else ExponentScan(true, end, end)
    else
      ExponentScan(false, i, i)
  }

  /** An exponent letter, at most a sign, and a digit or underscore. */
  predicate HasExponent(s: string, i: nat) {
    IsExponentLetter(s, i) && ExponentDigits(s, i) < |s| && IsNumeralChar(s[ExponentDigits(s, i)])
  }

  lemma ExponentIsPresent(s: string, i: nat)
    requires i <= |s|
    ensures ScanExponent(s, i).present <==> HasExponent(s, i)
  {
  }

  /** The value of a run of digits and underscores, the underscores ignored. */
  function NumeralValue(text: string): nat {
    if text == "" then 0
    else
      var high := NumeralValue(text[..|text| - 1]);
      var c := text[|text| - 1];
      if IsDigit(c) then 10 * high + (c as int - '0' as int) else high
  }

  /** `parse::<u32>` can only fail by overflow here, and an overflowing base is out of range anyway. */
  predicate ValidBase(text: string) {
    2 <= NumeralValue(text) <= 16
  }

  /** Where the digits of a based literal stop, counted from its first `#`. */
  function BasedClose(s: string, hash: nat): (close: nat)
    requires hash < |s|
    ensures hash < close <= |s|
  {
    SkipWhile(s, hash + 1, IsBasedDigit)
  }

  predicate WellFormedBased(s: string, i: nat, hash: nat)
    requires i < hash < |s|
  {
    var close := BasedClose(s, hash);
    ValidBase(s[i..hash]) && close != hash + 1 && close < |s| && s[close] == '#'
  }

  /** The rest of a based literal whose digits stop at `close`. */
  function BasedFrom(s: string, i: nat, close: nat, wellFormed: bool): (r: Scanned)
    requires i < close <= |s| && (wellFormed ==> close < |s|)
    ensures close <= r.end <= r.reach <= |s| && r.reach <= r.end + 2
  {
    if wellFormed then
      var e := ScanExponent(s, close + 1);
      Scanned(BasedLiteral(s[i..e.end]), e.end, e.reach)
    else
      var end := SkipWhile(s, close, IsWordish);
      Scanned(Error("malformed based literal"), end, end)
  }

  function ScanBased(s: string, i: nat, hash: nat): (r: Scanned)
    requires i < hash < |s|
    ensures hash < r.end <= r.reach <= |s| && r.reach <= r.end + 2
  {
    BasedFrom(s, i, BasedClose(s, hash), WellFormedBased(s, i, hash))
  }

  predicate HasFraction(s: string, i: nat) {
    i + 1 < |s| && s[i] == '.' && IsDigit(s[i + 1])
  }

  /** Where the whole part and the fraction, if there is one, end. */
  function MantissaEnd(s: string, whole: nat): (end: nat)
    requires whole <= |s|
    ensures whole <= end <= |s|
  {
    if HasFraction(s, whole) then SkipWhile(s, whole + 1, IsNumeralChar) else whole
  }

  function ScanDecimal(s: string, i: nat, whole: nat): (r: Scanned)
    requires i < whole <= |s|
    ensures whole <= r.end <= r.reach <= |s| && r.reach <= r.end + 2
  {
    var e := ScanExponent(s, MantissaEnd(s, whole));
    var text := s[i..e.end];
    Scanned(if HasFraction(s, whole) || e.present then RealLiteral(text) else IntLiteral(text), e.end, e.reach)
  }

  function ScanNumber(s: string, i: nat): (r: Scanned)
    requires i < |s| && IsDigit(s[i])
    ensures i < r.end <= r.reach <= |s| && r.reach <= r.end + 2
  {
    var whole := SkipWhile(s, i, IsNumeralChar);
    if whole < |s| && s[whole] == '#' then ScanBased(s, i, whole) else ScanDecimal(s, i, whole)
  }

  // -------------------------------------------------------- words and comments

  function ScanWord(s: string, i: nat, reserved: WordTable): Scanned
    requires i < |s|
  {
    var end := SkipWhile(s, i + 1, IsIdentifierContinue);
    Scanned(KeywordOrIdentifier(Lower(s[i..end]), reserved), end, end)
  }

  function ScanComment(s: string, i: nat): Scanned
    requires i + 1 < |s|
  {
    var end := SkipWhile(s, i + 2, NotNewline);
    Scanned(Comment(s[i + 2..end]), end, end)
  }

  // ---------------------------------------------------- strings and apostrophes

  datatype QuotedScan = QuotedScan(closed: bool, content: string, end: nat)

  /** Reads the rest of a string literal whose characters so far are `content`. */
  function StringBody(s: string, j: nat, content: string): (q: QuotedScan)
    requires j <= |s|
    ensures j <= q.end <= |s|
    decreases |s| - j
  {
    if j == |s| || s[j] == '\n' then QuotedScan(false, content, j)
    else if s[j] != '"' then StringBody(s, j + 1, content + [s[j]])
    else if j + 1 < |s| && s[j + 1] == '"' then StringBody(s, j + 2, content + ['"'])
    else QuotedScan(true, content, j + 1)
  }

  function ScanString(s: string, i: nat): Scanned
    requires i < |s|
  {
    var q := StringBody(s, i + 1, "");
    Scanned(if q.closed then StringLiteral(q.content) else Error("unterminated string literal"), q.end, q.end)
  }

  /** A character literal could start at the apostrophe `s[i]`. */
  predicate CharacterCandidate(s: string, i: nat) {
    i + 2 < |s| && s[i + 1] != '\n' && s[i + 1] != '\'' && s[i + 2] == '\''
  }

  function ScanApostrophe(s: string, i: nat, attribute: bool): Scanned
    requires i < |s|
  {
    if !attribute && CharacterCandidate(s, i) then Scanned(CharLiteral(s[i + 1]), i + 3, i + 3)
    else Scanned(Tick, i + 1, i + 1)
  }

  // --------------------------------------------------------------- punctuation

  function ScanPunctuation(s: string, i: nat): Scanned
    requires i < |s|
  {
    var next := if i + 1 < |s| then Some(s[i + 1]) else None;
    var one := i + 1;
    var two := i + 2;
    match s[i]
    case '(' => Scanned(LParen, one, one)
    case ')' => Scanned(RParen, one, one)
    case ';' => Scanned(Semicolon, one, one)
    case ',' => Scanned(Comma, one, one)
    case ':' => if next == Some('=') then Scanned(Assign, two, two) else Scanned(Colon, one, one)
    case '=' => if next == Some('>') then Scanned(Arrow, two, two) else Scanned(Eq, one, one)
    case '.' => if next == Some('.') then Scanned(DotDot, two, two) else Scanned(Dot, one, one)
    case '<' =>
      if next == Some('>') then Scanned(Box, two, two)
      else if next == Some('=') then Scanned(Le, two, two)
      else Scanned(Lt, one, one)
    case '>' => if next == Some('=') then Scanned(Ge, two, two) else Scanned(Gt, one, one)
    case '/' => if next == Some('=') then Scanned(Neq, two, two) else Scanned(Slash, one, one)
    case '*' => if next == Some('*') then Scanned(DoubleStar, two, two) else Scanned(Star, one, one)
    case '+' => Scanned(Plus, one, one)
    case '-' => Scanned(Minus, one, one)
    case '&' => Scanned(Ampersand, one, one)
    case c => Scanned(Error("unexpected character '" + [c] + "'"), one, one)
  }

  // --------------------------------------------------------------- one token

  function Scan(s: string, i: nat, reserved: WordTable, attribute: bool): (r: Scanned)
    requires i < |s| && !IsWhitespace(s[i])
    ensures i < r.end <= r.reach <= |s| && r.reach <= r.end + 2
    ensures r.kind != Eof
  {
    if s[i] == '-' && i + 1 < |s| && s[i + 1] == '-' then ScanComment(s, i)
    else if s[i] == '"' then ScanString(s, i)
    else if s[i] == '\'' then ScanApostrophe(s, i, attribute)
    else if IsDigit(s[i]) then ScanNumber(s, i)
    else if IsLetter(s[i]) then ScanWord(s, i, reserved)
    else ScanPunctuation(s, i)
  }

  // ------------------------------------------------------------- whole sources

  function TokenOf(p: Pos, sc: Scanned): Token {
    Token(sc.kind, sc.kind, p.offset, sc.end, p.line, p.col)
  }

  /** The rollback restores the offset but neither the line nor the column. */
  function After(s: string, p: Pos, sc: Scanned): Pos
    requires p.offset <= sc.reach <= |s|
  {
    BumpTo(s, p, sc.reach).(offset := sc.end)
  }

  function Remember(last: Option<TokenKind>, kind: TokenKind): Option<TokenKind> {
    if kind.Comment? || kind.Eof? then last else Some(kind)
  }

  function EofToken(p: Pos): Token {
    Token(Eof, Eof, p.offset, p.offset, p.line, p.col)
  }

  function LexFrom(s: string, reserved: WordTable, p: Pos, last: Option<TokenKind>): (ts: seq<Token>)
    requires p.offset <= |s|
    ensures |ts| > 0
    decreases |s| - p.offset
  {
    if p.offset == |s| then [EofToken(p)]
    else if IsWhitespace(s[p.offset]) then LexFrom(s, reserved, BumpOne(s, p), last)
    else
      var sc := Scan(s, p.offset, reserved, IsAttributePrefix(last));
      [TokenOf(p, sc)] + LexFrom(s, reserved, After(s, p, sc), Remember(last, sc.kind))
  }

  function Tokens(s: string, reserved: WordTable): seq<Token> {
    LexFrom(s, reserved, START, None)
  }
}
