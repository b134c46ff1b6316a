/**
 The lexical rules once more, as the Ada Reference Manual spells them out (sections 2.2 to 2.9), without a word
 of the lexer's own tables and character classes; where the lexer goes its own way, as the lexer goes. Texts
 printed by these rules are read back.
 */
module AdaManual {
  import opened Common
  import opened AdaTokens
  import opened AdaScan
  import opened AdaRoundTrip
  import opened AdaLayout

  // ---------------------------------------------------------------- reserved words

  /** Section 2.9 of the Ada 83 manual. */
  predicate Ada83Word(w: string) {
    || w == "abort" || w == "abs" || w == "accept" || w == "access" || w == "all" || w == "and" || w == "array"
    || w == "at" || w == "begin" || w == "body" || w == "case" || w == "constant" || w == "declare" || w == "delay"
    || w == "delta" || w == "digits" || w == "do" || w == "else" || w == "elsif" || w == "end" || w == "entry"
    || w == "exception" || w == "exit" || w == "for" || w == "function" || w == "generic" || w == "goto" || w == "if"
    || w == "in" || w == "is" || w == "limited" || w == "loop" || w == "mod" || w == "new" || w == "not" || w == "null"
    || w == "of" || w == "or" || w == "others" || w == "out" || w == "package" || w == "pragma" || w == "private"
    || w == "procedure" || w == "raise" || w == "range" || w == "record" || w == "rem" || w == "renames"
    || w == "return" || w == "reverse" || w == "select" || w == "separate" || w == "subtype" || w == "task"
    || w == "terminate" || w == "then" || w == "type" || w == "use" || w == "when" || w == "while" || w == "with"
    || w == "xor"
  }

  /** The words the later editions added; those of Ada 95 are reserved in every dialect here. */
  predicate IsWord(w: string, d: AdaStandard) {
    || Ada83Word(w)
    || w == "abstract" || w == "aliased" || w == "protected" || w == "requeue" || w == "tagged" || w == "until"
    || ((w == "interface" || w == "overriding" || w == "synchronized") && d != Ada83 && d != Ada95)
    || (w == "some" && (d == Ada2012 || d == Ada2022))
    || (w == "parallel" && d == Ada2022)
  }

  lemma WordsAreReserved(w: string, d: AdaStandard)
    ensures IsReserved(w, d) <==> IsWord(w, d)
  {
  }

  // --------------------------------------------------------------------- characters

  predicate Capital(c: char) { 'A' <= c <= 'Z' }

  predicate Letter(c: char) { 'a' <= c <= 'z' || Capital(c) }

  predicate Digit(c: char) { '0' <= c <= '9' }

  function Alphabet(): (s: string)
    ensures |s| == 26
  {
    "abcdefghijklmnopqrstuvwxyz"
  }

  function SmallLetter(c: char): char {
    if Capital(c) then Alphabet()[c as int - 'A' as int] else c
  }

  /** The word in small letters. */
  function Small(text: string): string {
    if text == "" then "" else [SmallLetter(text[0])] + Small(text[1..])
  }

  lemma {:induction false} SmallIsLower(text: string)
    ensures Small(text) == Lower(text)
  {
    if text != "" {
      SmallIsLower(text[1..]);
      SmallLetterIsLower(text[0]);
      assert Lower(text) == [LowerChar(text[0])] + Lower(text[1..]);
    }
  }

  lemma SmallLetterIsLower(c: char)
    ensures SmallLetter(c) == LowerChar(c)
  {
    if Capital(c) {
      var k := c as int - 'A' as int;
      assert Alphabet()[k] as int == 'a' as int + k;
    }
  }

  /** What a numeral is worth, read from the left. */
  function Worth(text: string, high: nat): nat {
    if text == "" then high
    else if text[0] == '_' then Worth(text[1..], high)
    else if Digit(text[0]) then Worth(text[1..], 10 * high + (text[0] as int - '0' as int))
    else Worth(text[1..], high)
  }

  lemma {:induction false} WorthAppend(text: string, c: char, high: nat)
    ensures Worth(text + [c], high)
         == if Digit(c) then 10 * Worth(text, high) + (c as int - '0' as int) else Worth(text, high)
    decreases |text|
  {
    if text == "" {
      assert text + [c] == [c] && [c][1..] == "";
    } else {
      assert (text + [c])[1..] == text[1..] + [c];
      WorthAppend(text[1..], c, if Digit(text[0]) then 10 * high + (text[0] as int - '0' as int) else high);
    }
  }

  lemma {:induction false} WorthIsValue(text: string)
    ensures Worth(text, 0) == NumeralValue(text)
  {
    if text != "" {
      var front, c := text[..|text| - 1], text[|text| - 1];
      assert text == front + [c];
      WorthIsValue(front);
      WorthAppend(front, c, 0);
    }
  }

  // ------------------------------------------------------------------------ lexemes

  ghost predicate Numeral(text: string) {
    |text| > 0 && Digit(text[0]) && forall k | 0 <= k < |text| :: Digit(text[k]) || text[k] == '_'
  }

  ghost predicate PlainExponent(e: Option<Exponent>) {
    e.Some? ==>
      && (e.value.letter == 'e' || e.value.letter == 'E')
      && (e.value.sign == "" || e.value.sign == "+" || e.value.sign == "-")
      && |e.value.digits| > 0 && forall k | 0 <= k < |e.value.digits| :: Digit(e.value.digits[k]) || e.value.digits[k] == '_'
  }

  /** What may stand between two hashes: visible ASCII but the marks that end a word. */
  predicate BasedCharacter(c: char) {
    && '!' <= c <= '~' && c != '#' && c != '(' && c != ')' && c != ';' && c != ',' && c != ':' && c != '=' && c != '.'
    && c != '<' && c != '>' && c != '/' && c != '*' && c != '+' && c != '-' && c != '&' && c != '\'' && c != '"'
  }

  ghost predicate Plain(x: Lexeme) {
    match x
    case Word(text) =>
      |text| > 0 && Letter(text[0]) && forall k | 0 <= k < |text| :: Letter(text[k]) || Digit(text[k]) || text[k] == '_'
    case Number(whole, fraction, exponent) =>
      Numeral(whole) && (fraction.Some? ==> Numeral(fraction.value)) && PlainExponent(exponent)
    case Based(base, digits, exponent) =>
      && Numeral(base) && 2 <= Worth(base, 0) <= 16
      && |digits| > 0 && (forall k | 0 <= k < |digits| :: BasedCharacter(digits[k])) && PlainExponent(exponent)
    case Quoted(content) => '\n' !in content
    case Character(ch) => ch != '\n' && ch != '\''
    case Mark(kind) => MarkText(kind) != ""
    case Apostrophe => true
    case Remark(text) => '\n' !in text
  }

  lemma NumeralIsNumeral(text: string)
    requires Numeral(text)
    ensures IsNumeral(text)
  {
  }

  lemma PlainIsWellFormed(x: Lexeme)
    requires Plain(x)
    ensures WellFormed(x)
  {
    if x.Based? {
      WorthIsValue(x.base);
    }
  }

  // --------------------------------------------------------------------- apostrophes

  /** The four lexemes behind which an apostrophe is a mark. */
  predicate TakesMark(x: Lexeme, d: AdaStandard) {
    match x
    case Word(text) => !IsWord(Small(text), d) || Small(text) == "all"
    case Mark(kind) => kind == RParen
    case Apostrophe => true
    case _ => false
  }

  /** The lexeme in front of the next one, comments skipped. */
  function Front(prev: Option<Lexeme>, x: Lexeme): Option<Lexeme> {
    if x.Remark? then prev else Some(x)
  }

  function FrontAfter(prev: Option<Lexeme>, xs: seq<Lexeme>): Option<Lexeme>
    decreases |xs|
  {
    if xs == [] then prev else FrontAfter(Front(prev, xs[0]), xs[1..])
  }

  predicate MarkBehind(prev: Option<Lexeme>, d: AdaStandard) {
    prev.Some? && TakesMark(prev.value, d)
  }

  /** Marks stand behind one of the four, character literals anywhere else. */
  ghost predicate Placed(xs: seq<Lexeme>, prev: Option<Lexeme>, d: AdaStandard) {
    xs == [] ||
    (&& Plain(xs[0])
     && (xs[0].Apostrophe? ==> MarkBehind(prev, d)) && (xs[0].Character? ==> !MarkBehind(prev, d))
     && Placed(xs[1..], Front(prev, xs[0]), d))
  }

  function ManualKind(x: Lexeme, d: AdaStandard): TokenKind {
    match x
    case Word(text) => if IsWord(Small(text), d) then Keyword(Small(text)) else Identifier(Small(text))
    case Number(_, fraction, exponent) =>
      if fraction.Some? || exponent.Some? then RealLiteral(Spelling(x)) else IntLiteral(Spelling(x))
    case Based(_, _, _) => BasedLiteral(Spelling(x))
    case Quoted(content) => StringLiteral(content)
    case Character(ch) => CharLiteral(ch)
    case Mark(kind) => kind
    case Apostrophe => Tick
    case Remark(text) => Comment(text)
  }

  lemma KindIsManual(x: Lexeme, d: AdaStandard)
    ensures KindOf(x, ReservedWords(d)) == ManualKind(x, d)
  {
    if x.Word? {
      SmallIsLower(x.text);
      WordsAreReserved(Small(x.text), d);
    }
  }

  /** What the lexer remembers decides as the lexeme in front does. */
  lemma PrefixIsManual(x: Lexeme, d: AdaStandard)
    requires Plain(x) && !x.Remark?
    ensures IsAttributePrefix(Some(KindOf(x, ReservedWords(d)))) <==> TakesMark(x, d)
  {
    KindIsManual(x, d);
  }

  lemma {:induction false} PlacedIsOrdered(xs: seq<Lexeme>, prev: Option<Lexeme>, last: Option<TokenKind>, d: AdaStandard)
    requires Placed(xs, prev, d) && (IsAttributePrefix(last) <==> MarkBehind(prev, d))
    ensures Ordered(xs, last, ReservedWords(d))
    ensures IsAttributePrefix(LastAfter(last, Spaced(xs), ReservedWords(d))) <==> MarkBehind(FrontAfter(prev, xs), d)
    decreases |xs|
  {
    if xs != [] {
      var x := xs[0];
      PlainIsWellFormed(x);
      if !x.Remark? {
        PrefixIsManual(x, d);
      }
      PlacedIsOrdered(xs[1..], Front(prev, x), Remember(last, KindOf(x, ReservedWords(d))), d);
      assert Spaced(xs)[1..] == Spaced(xs[1..]);
    }
  }

  /** The token has this kind and covers this text. */
  ghost predicate IsToken(s: string, t: Token, kind: TokenKind, text: string) {
    t.kind == t.effectiveKind == kind && t.start <= t.end <= |s| && s[t.start..t.end] == text
  }

  /**
   Lexemes printed one space apart, comments on lines of their own, are read back in every dialect: words and
   reserved words by the manual's list, marks behind the four lexemes and character literals everywhere else.
   */
  lemma SpacedProgramIsReadBack(xs: seq<Lexeme>, d: AdaStandard)
    requires Placed(xs, None, d)
    ensures var s := Render(Spaced(xs), "");
            var ts := Tokens(s, ReservedWords(d));
            && |ts| == |xs| + 1 && ts[|xs|].kind == Eof
            && forall k | 0 <= k < |xs| :: IsToken(s, ts[k], ManualKind(xs[k], d), Spelling(xs[k]))
  {
    PlacedIsOrdered(xs, None, None, d);
    SpacedTextIsReadBack(xs, ReservedWords(d));
    forall k | 0 <= k < |xs|
      ensures KindOf(xs[k], ReservedWords(d)) == ManualKind(xs[k], d)
    {
      KindIsManual(xs[k], d);
    }
  }

  lemma QuoteScanned(s: string, i: nat, c: char, attribute: bool, reserved: WordTable)
    requires i < |s| && s[i..] == ['\'', c, '\''] && c != '\n' && c != '\''
    ensures !IsWhitespace(s[i])
    ensures Scan(s, i, reserved, attribute).kind == if attribute then Tick else CharLiteral(c)
  {
    assert s[i..][0] == s[i] && s[i..][1] == s[i + 1] && s[i..][2] == s[i + 2];
  }

  /** A quoted character behind a printed text is a mark, a character and a mark exactly behind one of the four. */
  lemma QuotedCharacterBehind(xs: seq<Lexeme>, c: char, d: AdaStandard)
    requires Placed(xs, None, d) && c != '\n' && c != '\''
    ensures var ts := Tokens(Render(Spaced(xs), ['\'', c, '\'']), ReservedWords(d));
            |ts| > |xs| && ts[|xs|].kind == if MarkBehind(FrontAfter(None, xs), d) then Tick else CharLiteral(c)
  {
    var reserved, items, tail := ReservedWords(d), Spaced(xs), ['\'', c, '\''];
    var s := Render(items, tail);
    PlacedIsOrdered(xs, None, None, d);
    SpacedIsPrintable(xs, tail, None, reserved);
    assert s[0..] == s;
    var q := ItemsAreRead(s, reserved, START, None, items, tail);
    var last := LastAfter(None, items, reserved);
    var rest := LexFrom(s, reserved, q, last);
    QuoteScanned(s, q.offset, c, IsAttributePrefix(last), reserved);
    assert rest[0] == TokenOf(q, Scan(s, q.offset, reserved, IsAttributePrefix(last)));
    ReadsAt(s, Tokens(s, reserved), items, rest, reserved);
    assert Tokens(s, reserved)[|xs|..][0] == rest[0];
  }

  // ------------------------------------------------------------------ where runs end

  /** The lexer's character classes are the manual's, blanks apart. */
  lemma ClassesAreManual(c: char)
    ensures IsLetter(c) <==> Letter(c)
    ensures IsDigit(c) <==> Digit(c)
    ensures IsIdentifierContinue(c) <==> Letter(c) || Digit(c) || c == '_'
    ensures IsNumeralChar(c) <==> Digit(c) || c == '_'
    ensures NotNewline(c) <==> c != '\n'
  {
  }

  /** A word ends in front of the first character that is no letter, digit or underscore, and nowhere else. */
  lemma WordEndsExactly(text: string, c: char, rest: string, reserved: WordTable)
    requires Plain(Word(text))
    ensures ScanWord(text + ([c] + rest), 0, reserved).end == |text| <==> !(Letter(c) || Digit(c) || c == '_')
  {
    var s := text + ([c] + rest);
    assert s[0..|text|] == text && s[|text|] == c;
    assert forall k | 0 <= k < |text| :: s[k] == text[k];
    ClassesAreManual(c);
  }

  /** So do digits, in front of the first character that is no digit or underscore. */
  lemma DigitsEndExactly(digits: string, c: char, rest: string)
    requires Numeral(digits)
    ensures SkipWhile(digits + ([c] + rest), 0, IsNumeralChar) == |digits| <==> !(Digit(c) || c == '_')
  {
    var s := digits + ([c] + rest);
    assert s[0..|digits|] == digits && s[|digits|] == c;
    assert forall k | 0 <= k < |digits| :: s[k] == digits[k];
    ClassesAreManual(c);
  }

  // ------------------------------------------------------------------ what is refused

  /** What begins no lexeme. */
  predicate Stray(c: char) {
    c in "!#$%?@[\\]^_`{|}~"
  }

  lemma PunctuationAlone(c: char)
    requires '!' <= c <= '~' && !Letter(c) && !Digit(c) && c != '"' && c != '\''
    ensures ScanPunctuation([c], 0).kind.Error? <==> Stray(c)
  {
  }

  /** A visible ASCII character alone is an error exactly when no lexeme begins with it, or it is a quote. */
  lemma CharacterAlone(c: char, reserved: WordTable)
    requires '!' <= c <= '~'
    ensures !IsWhitespace(c)
    ensures Scan([c], 0, reserved, false).kind.Error? <==> c == '"' || Stray(c)
  {
    if !Letter(c) && !Digit(c) && c != '"' && c != '\'' {
      PunctuationAlone(c);
    }
  }

  lemma BasedCharactersAre(digits: string)
    requires forall k | 0 <= k < |digits| :: BasedCharacter(digits[k])
    ensures All(digits, IsBasedDigit)
  {
  }

  /** A base and digits between hashes are a literal exactly when the base is worth 2 to 16. */
  lemma BasedExactly(base: string, digits: string)
    requires Numeral(base) && |digits| > 0 && forall k | 0 <= k < |digits| :: BasedCharacter(digits[k])
    ensures var s := base + "#" + digits + "#";
            && IsDigit(s[0])
            && ScanNumber(s, 0).kind
            == if 2 <= Worth(base, 0) <= 16 then BasedLiteral(s) else Error("malformed based literal")
  {
    var s := base + "#" + digits + "#";
    var hash, close := |base|, |base| + 1 + |digits|;
    WorthIsValue(base);
    BasedCharactersAre(digits);
    assert s[0..|base|] == base && s[hash + 1..close] == digits && s[hash] == '#' && s[close] == '#' && |s| == close + 1;
    if 2 <= Worth(base, 0) <= 16 {
      BasedIsScanned(s, 0, base, hash, digits, close, ScanExponent(s, close + 1).end);
      assert s[0..|s|] == s;
    } else {
      WrongBase(s, base, hash);
    }
  }

  lemma WrongBase(s: string, base: string, hash: nat)
    requires IsNumeral(base) && StandsAt(s, 0, base) && hash == |base| < |s| && s[hash] == '#' && !ValidBase(base)
    ensures IsDigit(s[0]) && ScanNumber(s, 0).kind == Error("malformed based literal")
  {
    assert s[hash..][0] == s[hash];
    WholeIsRead(s, 0, base);
    assert s[0..hash] == base;
  }

  /** The 25 code points with the White_Space property of the Unicode standard. */
  lemma WhitespaceIsUnicodes(c: char)
    ensures IsWhitespace(c) <==>
            (c as int) in [9, 10, 11, 12, 13, 32, 133, 160, 5760, 8192, 8193, 8194, 8195, 8196, 8197, 8198, 8199, 8200, 8201,
                           8202, 8232, 8233, 8239, 8287, 12288]
  {
  }
}
