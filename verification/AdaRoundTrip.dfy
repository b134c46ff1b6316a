/**
 Lexing undoes printing. Lexemes are printed with any layout between them (whitespace, or nothing where
 the next character cannot extend the lexeme); lexing reads back exactly their kinds and texts.
 */
module AdaRoundTrip {
  import opened Common
  import opened AdaTokens
  import opened AdaScan

  datatype Exponent = Exponent(letter: char, sign: string, digits: string)

  /** The source forms of tokens, built from their parts. */
  datatype Lexeme =
    | Word(text: string)
    | Number(whole: string, fraction: Option<string>, exponent: Option<Exponent>)
    | Based(base: string, digits: string, exponent: Option<Exponent>)
    | Quoted(content: string)
    | Character(ch: char)
    | Mark(kind: TokenKind)
    | Apostrophe
    | Remark(text: string)

  // ------------------------------------------------------------------ printing

  function ExponentText(e: Option<Exponent>): string {
    match e
    case None => ""
    case Some(x) => [x.letter] + x.sign + x.digits
  }

  function DoubleQuotes(content: string): string {
    if content == "" then ""
    else (if content[0] == '"' then ['"', '"'] else [content[0]]) + DoubleQuotes(content[1..])
  }

  function MarkText(kind: TokenKind): string {
    match kind
    case LParen => "("
    case RParen => ")"
    case Semicolon => ";"
    case Comma => ","
    case Colon => ":"
    case Assign => ":="
    case Arrow => "=>"
    case DotDot => ".."
    case Dot => "."
    case Box => "<>"
    case Plus => "+"
    case Minus => "-"
    case Star => "*"
    case Slash => "/"
    case Ampersand => "&"
    case DoubleStar => "**"
    case Eq => "="
    case Neq => "/="
    case Lt => "<"
    case Le => "<="
    case Gt => ">"
    case Ge => ">="
    case _ => ""
  }

  function Spelling(x: Lexeme): string {
    match x
    case Word(text) => text
    case Number(whole, fraction, exponent) =>
      whole + (if fraction.Some? then "." + fraction.value else "") + ExponentText(exponent)
    case Based(base, digits, exponent) => base + "#" + digits + "#" + ExponentText(exponent)
    case Quoted(content) => "\"" + DoubleQuotes(content) + "\""
    case Character(ch) => ['\'', ch, '\'']
    case Mark(kind) => MarkText(kind)
    case Apostrophe => "'"
    case Remark(text) => "--" + text
  }

  function KindOf(x: Lexeme, reserved: WordTable): TokenKind {
    match x
    case Word(text) => KeywordOrIdentifier(Lower(text), reserved)
    case Number(_, fraction, exponent) =>
      if fraction.Some? || exponent.Some? then RealLiteral(Spelling(x)) else IntLiteral(Spelling(x))
    case Based(_, _, _) => BasedLiteral(Spelling(x))
    case Quoted(content) => StringLiteral(content)
    case Character(ch) => CharLiteral(ch)
    case Mark(kind) => kind
    case Apostrophe => Tick
    case Remark(text) => Comment(text)
  }

  // -------------------------------------------------------------- well-formedness

  ghost predicate All(s: string, p: char -> bool) {
    forall k | 0 <= k < |s| :: p(s[k])
  }

  ghost predicate IsNumeral(s: string) {
    |s| > 0 && IsDigit(s[0]) && All(s, IsNumeralChar)
  }

  ghost predicate IsExponent(e: Option<Exponent>) {
    e.Some? ==>
      && (e.value.letter == 'e' || e.value.letter == 'E')
      && (e.value.sign == "" || e.value.sign == "+" || e.value.sign == "-")
      && |e.value.digits| > 0 && All(e.value.digits, IsNumeralChar)
  }

  ghost predicate WellFormed(x: Lexeme) {
    match x
    case Word(text) => |text| > 0 && IsLetter(text[0]) && All(text, IsIdentifierContinue)
    case Number(whole, fraction, exponent) =>
      IsNumeral(whole) && (fraction.Some? ==> IsNumeral(fraction.value)) && IsExponent(exponent)
    case Based(base, digits, exponent) =>
      IsNumeral(base) && ValidBase(base) && |digits| > 0 && All(digits, IsBasedDigit) && IsExponent(exponent)
    case Quoted(content) => All(content, NotNewline)
    case Character(ch) => ch != '\n' && ch != '\''
    case Mark(kind) => MarkText(kind) != ""
    case Apostrophe => true
    case Remark(text) => All(text, NotNewline)
  }

  predicate NotFirst(rest: string, p: char -> bool) {
    |rest| > 0 ==> !p(rest[0])
  }

  /** The text `rest` that follows `x` cannot be taken for more of `x`. */
  predicate Stops(x: Lexeme, rest: string) {
    match x
    case Word(_) => NotFirst(rest, IsIdentifierContinue)
    case Number(_, fraction, exponent) =>
      && NotFirst(rest, IsNumeralChar)
      && (exponent.None? ==> !HasExponent(rest, 0))
      && (fraction.None? && exponent.None? ==> NotFirst(rest, c => c == '#') && !HasFraction(rest, 0))
    case Based(_, _, exponent) =>
      if exponent.None? then !HasExponent(rest, 0) else NotFirst(rest, IsNumeralChar)
    case Quoted(_) => NotFirst(rest, c => c == '"')
    case Mark(Colon) => NotFirst(rest, c => c == '=')
    case Mark(Eq) => NotFirst(rest, c => c == '>')
    case Mark(Dot) => NotFirst(rest, c => c == '.')
    case Mark(Lt) => NotFirst(rest, c => c == '>' || c == '=')
    case Mark(Gt) => NotFirst(rest, c => c == '=')
    case Mark(Slash) => NotFirst(rest, c => c == '=')
    case Mark(Star) => NotFirst(rest, c => c == '*')
    case Mark(Minus) => NotFirst(rest, c => c == '-')
    case Remark(_) => |rest| > 0 ==> rest[0] == '\n'
    case _ => true
  }

  /**
   After an attribute prefix every apostrophe is a mark, so no character literal can stand there;
   elsewhere a mark must not look like the start of a character literal.
   */
  predicate Fits(x: Lexeme, attribute: bool, rest: string) {
    match x
    case Character(_) => !attribute
    case Apostrophe => attribute || !CharacterCandidate("'" + rest, 0)
    case _ => true
  }

  // ------------------------------------------------------------- one lexeme read

  /** A scan of this kind up to this end; what it gave back behind it is left open. */
  predicate IsRead(sc: Scanned, kind: TokenKind, end: nat) {
    sc.kind == kind && sc.end == end
  }

  /** `text` stands in `s` at `i`. */
  ghost predicate StandsAt(s: string, i: nat, text: string) {
    i + |text| <= |s| && s[i..i + |text|] == text
  }

  lemma StandsAtSplit(s: string, i: nat, a: string, b: string)
    requires StandsAt(s, i, a + b)
    ensures StandsAt(s, i, a) && StandsAt(s, i + |a|, b)
  {
    assert s[i..i + |a|] == (a + b)[..|a|] == a;
    assert s[i + |a|..i + |a| + |b|] == (a + b)[|a|..] == b;
  }

  lemma RunIs(s: string, i: nat, text: string, p: char -> bool)
    requires StandsAt(s, i, text) && All(text, p) && NotFirst(s[i + |text|..], p)
    ensures SkipWhile(s, i, p) == i + |text|
  {
    assert forall k | i <= k < i + |text| :: s[k] == text[k - i];
    SkipWhileIs(s, i, p, i + |text|);
  }

  /** Where the parts of a printed exponent stand. */
  lemma ExponentStands(s: string, i: nat, e: Option<Exponent>)
    requires e.Some? && IsExponent(e) && StandsAt(s, i, ExponentText(e))
    ensures IsExponentLetter(s, i)
    ensures var digits := i + 1 + |e.value.sign|;
            ExponentDigits(s, i) == digits && StandsAt(s, digits, e.value.digits) && IsNumeralChar(s[digits])
  {
    var x := e.value;
    StandsAtSplit(s, i, [x.letter] + x.sign, x.digits);
    StandsAtSplit(s, i, [x.letter], x.sign);
    assert s[i] == s[i..i + 1][0] == x.letter;
    var digits := i + 1 + |x.sign|;
    assert s[digits] == s[digits..digits + |x.digits|][0] == x.digits[0];
    if x.sign != "" {
      assert s[i + 1] == s[i + 1..i + 1 + |x.sign|][0] == x.sign[0];
    }
  }

  lemma ExponentIsRead(s: string, i: nat, e: Option<Exponent>)
    requires IsExponent(e) && StandsAt(s, i, ExponentText(e))
    requires e.None? ==> !HasExponent(s[i..], 0)
    requires e.Some? ==> NotFirst(s[i + |ExponentText(e)|..], IsNumeralChar)
    ensures ScanExponent(s, i).present == e.Some? && ScanExponent(s, i).end == i + |ExponentText(e)|
  {
    if e.Some? {
      ExponentStands(s, i, e);
      RunIs(s, i + 1 + |e.value.sign|, e.value.digits, IsNumeralChar);
    } else {
      ExponentInRest(s, i);
      ExponentIsPresent(s, i);
    }
  }

  lemma ExponentInRest(s: string, i: nat)
    requires i <= |s|
    ensures HasExponent(s[i..], 0) <==> HasExponent(s, i)
  {
    var rest := s[i..];
    assert forall k | 0 <= k < |rest| :: rest[k] == s[i + k];
  }

  function FractionText(fraction: Option<string>): string {
    if fraction.Some? then "." + fraction.value else ""
  }

  lemma MantissaIsRead(s: string, whole: nat, fraction: Option<string>)
    requires fraction.Some? ==> IsNumeral(fraction.value)
    requires fraction.None? ==> !HasFraction(s, whole)
    requires StandsAt(s, whole, FractionText(fraction))
    requires NotFirst(s[whole + |FractionText(fraction)|..], IsNumeralChar)
    ensures HasFraction(s, whole) == fraction.Some?
    ensures MantissaEnd(s, whole) == whole + |FractionText(fraction)|
  {
    if fraction.Some? {
      StandsAtSplit(s, whole, ".", fraction.value);
      assert s[whole] == s[whole..whole + 1][0];
      assert s[whole + 1] == s[whole + 1..whole + 1 + |fraction.value|][0];
      RunIs(s, whole + 1, fraction.value, IsNumeralChar);
    }
  }

  /** Where the parts of a number stand. */
  lemma NumberStands(s: string, i: nat, x: Lexeme, whole: nat, mantissa: nat)
    requires x.Number? && WellFormed(x) && StandsAt(s, i, Spelling(x))
    requires whole == i + |x.whole| && mantissa == whole + |FractionText(x.fraction)|
    ensures StandsAt(s, i, x.whole) && s[i] == x.whole[0] && IsDigit(s[i])
    ensures StandsAt(s, whole, FractionText(x.fraction)) && StandsAt(s, mantissa, ExponentText(x.exponent))
    ensures i + |Spelling(x)| == mantissa + |ExponentText(x.exponent)|
    ensures x.fraction.Some? ==> s[whole] == '.'
  {
    var point, e := FractionText(x.fraction), ExponentText(x.exponent);
    assert Spelling(x) == x.whole + point + e;
    StandsAtSplit(s, i, x.whole + point, e);
    StandsAtSplit(s, i, x.whole, point);
    assert s[i] == s[i..i + |x.whole|][0];
    if x.fraction.Some? {
      assert s[whole] == s[whole..whole + |point|][0] == '.';
    }
  }

  /** What stands behind the parts of a number. */
  lemma NumberParts(s: string, i: nat, x: Lexeme, whole: nat, mantissa: nat, end: nat)
    requires x.Number? && WellFormed(x) && StandsAt(s, i, Spelling(x)) && end == i + |Spelling(x)| && Stops(x, s[end..])
    requires whole == i + |x.whole| && mantissa == whole + |FractionText(x.fraction)|
    ensures NotFirst(s[end..], IsNumeralChar) && end == mantissa + |ExponentText(x.exponent)|
    ensures x.exponent.None? ==> !HasExponent(s[mantissa..], 0)
    ensures x.fraction.None? ==> !HasFraction(s, whole)
    ensures whole < |s| ==> s[whole] != '#'
  {
    NumberStands(s, i, x, whole, mantissa);
    if x.fraction.None? {
      AfterNumeral(s, whole, x.exponent);
      if x.exponent.None? {
        FractionInRest(s, whole);
        assert whole < |s| ==> s[whole] == s[whole..][0];
      }
    }
  }

  lemma FractionInRest(s: string, i: nat)
    requires i <= |s|
    ensures HasFraction(s[i..], 0) <==> HasFraction(s, i)
  {
    var rest := s[i..];
    assert forall k | 0 <= k < |rest| :: rest[k] == s[i + k];
  }

  /** Wherever the parts of a number stand in order, they are scanned as one number. */
  lemma NumberPartsAreRead(s: string, i: nat, text: string, whole: nat, fraction: Option<string>, mantissa: nat,
                           exponent: Option<Exponent>, end: nat)
    requires whole == i + |text| && mantissa == whole + |FractionText(fraction)|
    requires end == mantissa + |ExponentText(exponent)|
    requires IsNumeral(text) && (fraction.Some? ==> IsNumeral(fraction.value)) && IsExponent(exponent)
    requires StandsAt(s, i, text) && StandsAt(s, whole, FractionText(fraction)) && StandsAt(s, mantissa, ExponentText(exponent))
    requires fraction.None? ==> !HasFraction(s, whole)
    requires NotFirst(s[end..], IsNumeralChar) && (exponent.None? ==> !HasExponent(s[mantissa..], 0))
    requires whole < |s| ==> s[whole] != '#'
    ensures var kind := if fraction.Some? || exponent.Some? then RealLiteral(s[i..end]) else IntLiteral(s[i..end]);
            IsDigit(s[i]) && IsRead(ScanNumber(s, i), kind, end)
  {
    AfterNumeral(s, mantissa, exponent);
    MantissaIsRead(s, whole, fraction);
    AfterWhole(s, whole, fraction);
    WholeIsRead(s, i, text);
    ExponentIsRead(s, mantissa, exponent);
    NumberFromStops(s, i, whole, mantissa, exponent.Some?, end);
  }

  lemma AfterWhole(s: string, whole: nat, fraction: Option<string>)
    requires StandsAt(s, whole, FractionText(fraction))
    requires fraction.None? ==> NotFirst(s[whole..], IsNumeralChar)
    ensures NotFirst(s[whole..], IsNumeralChar)
  {
    if fraction.Some? {
      assert s[whole..][0] == s[whole] == s[whole..whole + |FractionText(fraction)|][0] == '.';
    }
  }

  lemma NumberFromStops(s: string, i: nat, whole: nat, mantissa: nat, present: bool, end: nat)
    requires i < whole <= mantissa <= end <= |s| && IsDigit(s[i])
    requires SkipWhile(s, i, IsNumeralChar) == whole && (whole < |s| ==> s[whole] != '#')
    requires MantissaEnd(s, whole) == mantissa
    requires ScanExponent(s, mantissa).present == present && ScanExponent(s, mantissa).end == end
    ensures var kind := if HasFraction(s, whole) || present then RealLiteral(s[i..end]) else IntLiteral(s[i..end]);
            IsRead(ScanNumber(s, i), kind, end)
  {
    assert ScanNumber(s, i) == ScanDecimal(s, i, whole);
  }

  /** A number's kind is decided by its parts and carries its text. */
  lemma KindOfNumber(x: Lexeme, text: string, reserved: WordTable)
    requires x.Number? && Spelling(x) == text
    ensures KindOf(x, reserved) == if x.fraction.Some? || x.exponent.Some? then RealLiteral(text) else IntLiteral(text)
  {
  }

  lemma NumberIsRead(s: string, i: nat, x: Lexeme, reserved: WordTable)
    requires x.Number? && WellFormed(x) && StandsAt(s, i, Spelling(x)) && Stops(x, s[i + |Spelling(x)|..])
    ensures var end := i + |Spelling(x)|;
            IsDigit(s[i]) && IsRead(ScanNumber(s, i), KindOf(x, reserved), end)
  {
    var whole, end := i + |x.whole|, i + |Spelling(x)|;
    var mantissa := whole + |FractionText(x.fraction)|;
    KindOfNumber(x, s[i..end], reserved);
    NumberStands(s, i, x, whole, mantissa);
    NumberParts(s, i, x, whole, mantissa, end);
    NumberPartsAreRead(s, i, x.whole, whole, x.fraction, mantissa, x.exponent, end);
  }

  /** The whole part ends where the fraction, the exponent or the rest begins. */
  lemma WholeIsRead(s: string, i: nat, text: string)
    requires IsNumeral(text) && StandsAt(s, i, text) && NotFirst(s[i + |text|..], IsNumeralChar)
    ensures IsDigit(s[i]) && SkipWhile(s, i, IsNumeralChar) == i + |text|
  {
    RunIs(s, i, text, IsNumeralChar);
    assert s[i] == s[i..i + |text|][0];
  }

  /** What stands after the digits of a number is not one more digit. */
  lemma AfterNumeral(s: string, i: nat, e: Option<Exponent>)
    requires IsExponent(e) && StandsAt(s, i, ExponentText(e))
    requires e.None? ==> NotFirst(s[i..], IsNumeralChar)
    ensures NotFirst(s[i..], IsNumeralChar)
    ensures e.Some? ==> s[i] == e.value.letter
  {
    if e.Some? {
      assert s[i] == s[i..i + |ExponentText(e)|][0] == e.value.letter;
    }
  }

  lemma FourAndTail(s: string, i: nat, a: string, b: string, tail: string)
    requires StandsAt(s, i, a + "#" + b + "#" + tail)
    ensures StandsAt(s, i, a) && StandsAt(s, i + |a| + 1, b) && StandsAt(s, i + |a| + 1 + |b| + 1, tail)
    ensures s[i + |a|] == '#' && s[i + |a| + 1 + |b|] == '#'
  {
    StandsAtSplit(s, i, a + "#" + b + "#", tail);
    StandsAtSplit(s, i, a + "#" + b, "#");
    StandsAtSplit(s, i, a + "#", b);
    StandsAtSplit(s, i, a, "#");
    var hash, close := i + |a|, i + |a| + 1 + |b|;
    assert s[hash] == s[hash..hash + 1][0] && s[close] == s[close..close + 1][0];
  }

  /** Where the parts of a based literal stand. */
  lemma BasedParts(s: string, i: nat, x: Lexeme, hash: nat, close: nat, tail: nat)
    requires x.Based? && StandsAt(s, i, Spelling(x))
    requires hash == i + |x.base| && close == hash + 1 + |x.digits| && tail == close + 1
    ensures StandsAt(s, i, x.base) && StandsAt(s, hash + 1, x.digits) && StandsAt(s, tail, ExponentText(x.exponent))
    ensures i + |Spelling(x)| == tail + |ExponentText(x.exponent)|
    ensures close < |s| && s[hash] == '#' && s[close] == '#'
  {
    FourAndTail(s, i, x.base, x.digits, ExponentText(x.exponent));
  }

  /** Whatever follows, a literal with both its hashes is scanned as one, and ends with its exponent. */
  lemma BasedIsScanned(s: string, i: nat, base: string, hash: nat, digits: string, close: nat, end: nat)
    requires hash == i + |base| && close == hash + 1 + |digits| && close < |s|
    requires StandsAt(s, i, base) && IsNumeral(base) && ValidBase(base)
    requires StandsAt(s, hash + 1, digits) && |digits| > 0 && All(digits, IsBasedDigit)
    requires s[hash] == '#' && s[close] == '#' && end == ScanExponent(s, close + 1).end
    ensures IsDigit(s[i]) && IsRead(ScanNumber(s, i), BasedLiteral(s[i..end]), end)
  {
    assert s[hash..][0] == s[hash] && s[close..][0] == s[close];
    WholeIsRead(s, i, base);
    RunIs(s, hash + 1, digits, IsBasedDigit);
    BasedFromStops(s, i, hash, close, ScanExponent(s, close + 1).present, end);
  }

  lemma BasedPartsAreRead(s: string, i: nat, base: string, hash: nat, digits: string, close: nat,
                          exponent: Option<Exponent>, end: nat)
    requires hash == i + |base| && close == hash + 1 + |digits| && end == close + 1 + |ExponentText(exponent)|
    requires StandsAt(s, i, base) && IsNumeral(base) && ValidBase(base)
    requires StandsAt(s, hash + 1, digits) && |digits| > 0 && All(digits, IsBasedDigit)
    requires StandsAt(s, close + 1, ExponentText(exponent)) && IsExponent(exponent)
    requires s[hash] == '#' && s[close] == '#'
    requires exponent.None? ==> !HasExponent(s[close + 1..], 0)
    requires exponent.Some? ==> NotFirst(s[end..], IsNumeralChar)
    ensures IsDigit(s[i]) && IsRead(ScanNumber(s, i), BasedLiteral(s[i..end]), end)
  {
    assert ScanExponent(s, close + 1).end == end by { ExponentIsRead(s, close + 1, exponent); }
    BasedIsScanned(s, i, base, hash, digits, close, end);
  }

  lemma BasedFromStops(s: string, i: nat, hash: nat, close: nat, present: bool, end: nat)
    requires i < hash < close < end <= |s| && IsDigit(s[i]) && s[hash] == '#' && s[close] == '#'
    requires SkipWhile(s, i, IsNumeralChar) == hash && ValidBase(s[i..hash])
    requires BasedClose(s, hash) == close > hash + 1
    requires ScanExponent(s, close + 1).present == present && ScanExponent(s, close + 1).end == end
    ensures IsRead(ScanNumber(s, i), BasedLiteral(s[i..end]), end)
  {
    assert WellFormedBased(s, i, hash);
    ScanBasedIs(s, i, hash, close, present, end);
    ScanNumberIsBased(s, i, hash);
  }

  lemma ScanBasedIs(s: string, i: nat, hash: nat, close: nat, present: bool, end: nat)
    requires i < hash < close < end <= |s| && WellFormedBased(s, i, hash) && BasedClose(s, hash) == close
    requires ScanExponent(s, close + 1).present == present && ScanExponent(s, close + 1).end == end
    ensures IsRead(ScanBased(s, i, hash), BasedLiteral(s[i..end]), end)
  {
  }

  lemma ScanNumberIsBased(s: string, i: nat, hash: nat)
    requires i < hash < |s| && IsDigit(s[i]) && SkipWhile(s, i, IsNumeralChar) == hash && s[hash] == '#'
    ensures ScanNumber(s, i) == ScanBased(s, i, hash)
  {
  }

  lemma BasedIsRead(s: string, i: nat, x: Lexeme, reserved: WordTable)
    requires x.Based? && WellFormed(x) && StandsAt(s, i, Spelling(x)) && Stops(x, s[i + |Spelling(x)|..])
    ensures var end := i + |Spelling(x)|;
            IsDigit(s[i]) && IsRead(ScanNumber(s, i), KindOf(x, reserved), end)
  {
    var hash, end := i + |x.base|, i + |Spelling(x)|;
    var close := hash + 1 + |x.digits|;
    assert IsDigit(s[i]) && IsRead(ScanNumber(s, i), BasedLiteral(s[i..end]), end) by {
      BasedParts(s, i, x, hash, close, close + 1);
      BasedPartsAreRead(s, i, x.base, hash, x.digits, close, x.exponent, end);
    }
  }

  /** One character of the content, doubled if it is a quote, is read as itself. */
  lemma ContentStep(s: string, j: nat, c: char, done: string)
    requires c != '\n' && StandsAt(s, j, if c == '"' then ['"', '"'] else [c])
    ensures StringBody(s, j, done) == StringBody(s, j + if c == '"' then 2 else 1, done + [c])
  {
    if c == '"' {
      assert s[j] == s[j..j + 2][0] && s[j + 1] == s[j..j + 2][1];
    } else {
      assert s[j] == s[j..j + 1][0];
    }
  }

  lemma ContentEnd(s: string, j: nat, done: string)
    requires StandsAt(s, j, "\"") && NotFirst(s[j + 1..], c => c == '"')
    ensures StringBody(s, j, done) == QuotedScan(true, done, j + 1)
  {
    assert s[j] == s[j..j + 1][0];
    assert j + 1 < |s| ==> s[j + 1] == s[j + 1..][0];
  }

  /** Reading on past printed content gathers it. */
  lemma {:induction false} ContentIsRead(s: string, j: nat, content: string, done: string)
    requires All(content, NotNewline) && StandsAt(s, j, DoubleQuotes(content))
    ensures StringBody(s, j, done) == StringBody(s, j + |DoubleQuotes(content)|, done + content)
    decreases |content|
  {
    if content == "" {
      assert done + content == done;
    } else {
      var c, more := content[0], content[1..];
      var first := if c == '"' then ['"', '"'] else [c];
      StandsAtSplit(s, j, first, DoubleQuotes(more));
      ContentStep(s, j, c, done);
      ContentIsRead(s, j + |first|, more, done + [c]);
      assert done + [c] + more == done + content;
    }
  }

  lemma StringBodyIsRead(s: string, j: nat, content: string, done: string)
    requires All(content, NotNewline)
    requires StandsAt(s, j, DoubleQuotes(content) + "\"")
    requires NotFirst(s[j + |DoubleQuotes(content)| + 1..], c => c == '"')
    ensures StringBody(s, j, done) == QuotedScan(true, done + content, j + |DoubleQuotes(content)| + 1)
  {
    StandsAtSplit(s, j, DoubleQuotes(content), "\"");
    ContentIsRead(s, j, content, done);
    ContentEnd(s, j + |DoubleQuotes(content)|, done + content);
  }

  lemma MarkIsRead(s: string, i: nat, kind: TokenKind)
    requires MarkText(kind) != "" && StandsAt(s, i, MarkText(kind)) && Stops(Mark(kind), s[i + |MarkText(kind)|..])
    ensures s[i] == MarkText(kind)[0] && !(s[i] == '-' && i + 1 < |s| && s[i + 1] == '-')
    ensures var end := i + |MarkText(kind)|; ScanPunctuation(s, i) == Scanned(kind, end, end)
  {
    var text := MarkText(kind);
    var end := i + |text|;
    assert s[i] == s[i..end][0] == text[0];
    if |text| == 2 {
      assert s[i + 1] == s[i..end][1] == text[1];
    } else if end < |s| {
      assert s[i + 1] == s[end..][0];
    }
  }

  lemma WordIsRead(s: string, i: nat, text: string, reserved: WordTable)
    requires WellFormed(Word(text)) && StandsAt(s, i, text) && NotFirst(s[i + |text|..], IsIdentifierContinue)
    ensures IsLetter(s[i])
    ensures var end := i + |text|; ScanWord(s, i, reserved) == Scanned(KindOf(Word(text), reserved), end, end)
  {
    assert [text[0]] + text[1..] == text;
    StandsAtSplit(s, i, [text[0]], text[1..]);
    assert s[i] == s[i..i + 1][0];
    RunIs(s, i + 1, text[1..], IsIdentifierContinue);
  }

  lemma QuotedIsRead(s: string, i: nat, content: string)
    requires All(content, NotNewline) && StandsAt(s, i, Spelling(Quoted(content)))
    requires NotFirst(s[i + |Spelling(Quoted(content))|..], c => c == '"')
    ensures s[i] == '"'
    ensures var end := i + |Spelling(Quoted(content))|; ScanString(s, i) == Scanned(StringLiteral(content), end, end)
  {
    var tail := DoubleQuotes(content) + "\"";
    assert Spelling(Quoted(content)) == "\"" + tail;
    StandsAtSplit(s, i, "\"", tail);
    assert s[i] == s[i..i + 1][0];
    StringBodyIsRead(s, i + 1, content, "");
    assert "" + content == content;
  }

  lemma RemarkIsRead(s: string, i: nat, text: string)
    requires All(text, NotNewline) && StandsAt(s, i, "--" + text) && Stops(Remark(text), s[i + 2 + |text|..])
    ensures s[i] == '-' && s[i + 1] == '-'
    ensures var end := i + 2 + |text|; ScanComment(s, i) == Scanned(Comment(text), end, end)
  {
    StandsAtSplit(s, i, "--", text);
    assert s[i] == s[i..i + 2][0] && s[i + 1] == s[i..i + 2][1];
    RunIs(s, i + 2, text, NotNewline);
  }

  lemma ApostropheIsRead(s: string, i: nat, x: Lexeme, attribute: bool)
    requires x.Character? || x.Apostrophe?
    requires WellFormed(x) && StandsAt(s, i, Spelling(x)) && Fits(x, attribute, s[i + |Spelling(x)|..])
    ensures s[i] == '\''
    ensures var end := i + |Spelling(x)|; ScanApostrophe(s, i, attribute) == Scanned(KindOf(x, _ => false), end, end)
  {
    var end := i + |Spelling(x)|;
    assert s[i] == s[i..end][0];
    if x.Character? {
      assert s[i + 1] == s[i..end][1] && s[i + 2] == s[i..end][2];
    } else {
      assert CharacterCandidate(s, i) <==> CharacterCandidate("'" + s[end..], 0);
    }
  }

  /** A well-formed lexeme is scanned as itself, wherever it stands. */
  lemma LexemeIsRead(s: string, i: nat, x: Lexeme, reserved: WordTable, attribute: bool)
    requires WellFormed(x) && StandsAt(s, i, Spelling(x))
    requires Stops(x, s[i + |Spelling(x)|..]) && Fits(x, attribute, s[i + |Spelling(x)|..])
    ensures i < |s| && !IsWhitespace(s[i])
    ensures IsRead(Scan(s, i, reserved, attribute), KindOf(x, reserved), i + |Spelling(x)|)
  {
    match x {
      case Word(text) => WordIsRead(s, i, text, reserved);
      case Number(_, _, _) => NumberIsRead(s, i, x, reserved);
      case Based(_, _, _) => BasedIsRead(s, i, x, reserved);
      case Quoted(content) => QuotedIsRead(s, i, content);
      case Character(_) => ApostropheIsRead(s, i, x, attribute);
      case Mark(kind) => MarkIsRead(s, i, kind);
      case Apostrophe => ApostropheIsRead(s, i, x, attribute);
      case Remark(text) => RemarkIsRead(s, i, text);
    }
  }
}
