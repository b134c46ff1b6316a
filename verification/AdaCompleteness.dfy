/**
 The converse of the round trip. A lexeme is read as itself only in front of a text that cannot extend it, and
 every source without malformed tokens is a printed text.
 */
module AdaCompleteness {
  import opened Common
  import opened AdaTokens
  import opened AdaScan
  import opened AdaRoundTrip
  import opened AdaLayout

  // ---------------------------------------------------------------- runs and numbers

  /** A run goes on wherever it is looked at. */
  lemma {:induction false} SkipPast(s: string, i: nat, p: char -> bool, j: nat)
    requires i <= j <= |s| && forall k | i <= k < j :: p(s[k])
    ensures SkipWhile(s, i, p) == SkipWhile(s, j, p)
    decreases j - i
  {
    if i < j {
      SkipPast(s, i + 1, p, j);
    }
  }

  lemma RunAtLeast(s: string, i: nat, text: string, p: char -> bool)
    requires StandsAt(s, i, text) && All(text, p)
    ensures SkipWhile(s, i, p) == SkipWhile(s, i + |text|, p)
  {
    assert forall k | i <= k < i + |text| :: s[k] == text[k - i];
    SkipPast(s, i, p, i + |text|);
  }

  /** A number without fraction and exponent that ends where its digits do. */
  lemma PlainNumberEnds(s: string, i: nat, end: nat)
    requires i < end <= |s| && IsDigit(s[i]) && SkipWhile(s, i, IsNumeralChar) == SkipWhile(s, end, IsNumeralChar)
    requires ScanNumber(s, i).end == end
    ensures end < |s| ==> !IsNumeralChar(s[end]) && s[end] != '#'
    ensures !HasFraction(s, end) && !HasExponent(s, end)
  {
    var whole := SkipWhile(s, i, IsNumeralChar);
    assert whole == end;
    ExponentIsPresent(s, end);
  }

  /** The same behind a mantissa that goes as far as `mantissa` at least. */
  lemma RealEnds(s: string, i: nat, whole: nat, mantissa: nat, end: nat, exponent: bool)
    requires i < whole <= mantissa <= end <= |s| && IsDigit(s[i])
    requires SkipWhile(s, i, IsNumeralChar) == whole && whole < |s| && s[whole] != '#'
    requires MantissaEnd(s, whole) == mantissa || (!exponent && mantissa == end && MantissaEnd(s, whole) >= mantissa)
    requires ScanNumber(s, i).end == end
    ensures ScanExponent(s, MantissaEnd(s, whole)).end == end
    ensures !exponent && mantissa == end ==> MantissaEnd(s, whole) == end && !HasExponent(s, end)
  {
    assert ScanNumber(s, i) == ScanDecimal(s, i, whole);
    ExponentIsPresent(s, end);
  }

  lemma ExponentEnds(s: string, mantissa: nat, end: nat)
    requires mantissa < end <= |s| && IsExponentLetter(s, mantissa) && ExponentDigits(s, mantissa) < end
    requires SkipWhile(s, ExponentDigits(s, mantissa), IsNumeralChar) == SkipWhile(s, end, IsNumeralChar)
    requires ScanExponent(s, mantissa).end == end
    ensures end < |s| ==> !IsNumeralChar(s[end])
  {
  }

  lemma ExponentStandsUpTo(s: string, i: nat, e: Option<Exponent>)
    requires e.Some? && IsExponent(e) && StandsAt(s, i, ExponentText(e))
    ensures var end := i + |ExponentText(e)|;
            && IsExponentLetter(s, i) && ExponentDigits(s, i) < end
            && SkipWhile(s, ExponentDigits(s, i), IsNumeralChar) == SkipWhile(s, end, IsNumeralChar)
  {
    ExponentStands(s, i, e);
    RunAtLeast(s, i + 1 + |e.value.sign|, e.value.digits, IsNumeralChar);
  }

  lemma FractionStandsUpTo(s: string, whole: nat, fraction: string)
    requires IsNumeral(fraction) && StandsAt(s, whole, "." + fraction)
    ensures HasFraction(s, whole) && MantissaEnd(s, whole) == SkipWhile(s, whole + 1 + |fraction|, IsNumeralChar)
  {
    StandsAtSplit(s, whole, ".", fraction);
    assert s[whole] == s[whole..whole + 1][0];
    assert s[whole + 1] == s[whole + 1..whole + 1 + |fraction|][0];
    RunAtLeast(s, whole + 1, fraction, IsNumeralChar);
  }

  /** Nothing behind a number that was read as far as `end` can be more of it. */
  ghost predicate NumberStopsAt(s: string, end: nat, fraction: bool, exponent: bool)
    requires end <= |s|
  {
    && (end < |s| ==> !IsNumeralChar(s[end]))
    && (!exponent ==> !HasExponent(s, end))
    && (!fraction && !exponent ==> (end < |s| ==> s[end] != '#') && !HasFraction(s, end))
  }

  /** The whole part of a number ends where its fraction or its exponent begins. */
  lemma WholeEnds(s: string, i: nat, text: string, whole: nat)
    requires IsNumeral(text) && StandsAt(s, i, text) && whole == i + |text|
    requires whole < |s| && !IsNumeralChar(s[whole])
    ensures SkipWhile(s, i, IsNumeralChar) == whole
  {
    RunAtLeast(s, i, text, IsNumeralChar);
  }

  /** Behind the whole part stands the point of a fraction or the letter of an exponent. */
  lemma BehindWhole(s: string, whole: nat, fraction: Option<string>, mantissa: nat, exponent: Option<Exponent>)
    requires mantissa == whole + |FractionText(fraction)| && (fraction.Some? || exponent.Some?)
    requires (fraction.Some? ==> IsNumeral(fraction.value)) && IsExponent(exponent)
    requires StandsAt(s, whole, FractionText(fraction)) && StandsAt(s, mantissa, ExponentText(exponent))
    ensures whole < |s| && !IsNumeralChar(s[whole]) && s[whole] != '#'
    ensures MantissaEnd(s, whole) >= mantissa && (exponent.Some? || fraction.None? ==> MantissaEnd(s, whole) == mantissa)
  {
    if exponent.Some? {
      ExponentStandsUpTo(s, mantissa, exponent);
    }
    if fraction.Some? {
      FractionStandsUpTo(s, whole, fraction.value);
    }
  }

  /** A number with a fraction or an exponent: where its mantissa is taken to end, and its exponent with it. */
  lemma RealMantissa(s: string, i: nat, text: string, whole: nat, fraction: Option<string>, mantissa: nat,
                     exponent: Option<Exponent>, end: nat)
    requires whole == i + |text| && mantissa == whole + |FractionText(fraction)|
    requires end == mantissa + |ExponentText(exponent)| && (fraction.Some? || exponent.Some?)
    requires IsNumeral(text) && (fraction.Some? ==> IsNumeral(fraction.value)) && IsExponent(exponent)
    requires StandsAt(s, i, text) && StandsAt(s, whole, FractionText(fraction)) && StandsAt(s, mantissa, ExponentText(exponent))
    requires IsDigit(s[i]) && ScanNumber(s, i).end == end
    ensures MantissaEnd(s, whole) == mantissa && ScanExponent(s, mantissa).end == end
  {
    BehindWhole(s, whole, fraction, mantissa, exponent);
    WholeEnds(s, i, text, whole);
    RealEnds(s, i, whole, mantissa, end, exponent.Some?);
  }

  lemma NumberPartsEnd(s: string, i: nat, text: string, whole: nat, fraction: Option<string>, mantissa: nat,
                       exponent: Option<Exponent>, end: nat)
    requires whole == i + |text| && mantissa == whole + |FractionText(fraction)|
    requires end == mantissa + |ExponentText(exponent)|
    requires IsNumeral(text) && (fraction.Some? ==> IsNumeral(fraction.value)) && IsExponent(exponent)
    requires StandsAt(s, i, text) && StandsAt(s, whole, FractionText(fraction)) && StandsAt(s, mantissa, ExponentText(exponent))
    requires IsDigit(s[i]) && ScanNumber(s, i).end == end
    ensures NumberStopsAt(s, end, fraction.Some?, exponent.Some?)
  {
    if fraction.Some? || exponent.Some? {
      RealMantissa(s, i, text, whole, fraction, mantissa, exponent, end);
      TailEnds(s, mantissa, exponent, end);
    } else {
      RunAtLeast(s, i, text, IsNumeralChar);
      PlainNumberEnds(s, i, end);
    }
  }

  lemma StopsInRest(s: string, end: nat)
    requires end <= |s|
    ensures |s[end..]| > 0 <==> end < |s|
    ensures end < |s| ==> s[end..][0] == s[end]
    ensures HasFraction(s[end..], 0) <==> HasFraction(s, end)
    ensures HasExponent(s[end..], 0) <==> HasExponent(s, end)
  {
    FractionInRest(s, end);
    ExponentInRest(s, end);
  }

  lemma NumberTailStops(s: string, end: nat, x: Lexeme)
    requires x.Number? && end <= |s| && NumberStopsAt(s, end, x.fraction.Some?, x.exponent.Some?)
    ensures Stops(x, s[end..])
  {
    StopsInRest(s, end);
  }

  lemma NumberEndStopsAt(s: string, i: nat, x: Lexeme, whole: nat, mantissa: nat, end: nat)
    requires x.Number? && WellFormed(x) && StandsAt(s, i, Spelling(x)) && IsDigit(s[i])
    requires whole == i + |x.whole| && mantissa == whole + |FractionText(x.fraction)|
    requires end == i + |Spelling(x)| && ScanNumber(s, i).end == end
    ensures NumberStopsAt(s, end, x.fraction.Some?, x.exponent.Some?)
  {
    NumberStands(s, i, x, whole, mantissa);
    NumberPartsEnd(s, i, x.whole, whole, x.fraction, mantissa, x.exponent, end);
  }

  lemma NumberStops(s: string, i: nat, x: Lexeme)
    requires x.Number? && WellFormed(x) && StandsAt(s, i, Spelling(x)) && IsDigit(s[i])
    requires ScanNumber(s, i).end == i + |Spelling(x)|
    ensures Stops(x, s[i + |Spelling(x)|..])
  {
    var whole := i + |x.whole|;
    NumberEndStopsAt(s, i, x, whole, whole + |FractionText(x.fraction)|, i + |Spelling(x)|);
    NumberTailStops(s, i + |Spelling(x)|, x);
  }

  /** What a scan of the exponent says of the text behind it. */
  lemma TailEnds(s: string, at: nat, exponent: Option<Exponent>, end: nat)
    requires IsExponent(exponent) && StandsAt(s, at, ExponentText(exponent)) && end == at + |ExponentText(exponent)|
    requires ScanExponent(s, at).end == end
    ensures exponent.Some? ==> end < |s| ==> !IsNumeralChar(s[end])
    ensures exponent.None? ==> !HasExponent(s, end)
  {
    if exponent.Some? {
      ExponentStandsUpTo(s, at, exponent);
      ExponentEnds(s, at, end);
    } else {
      ExponentIsPresent(s, end);
    }
  }

  // ------------------------------------------------------------------ based literals

  lemma BasedPartsEnd(s: string, i: nat, base: string, hash: nat, digits: string, close: nat, end: nat)
    requires hash == i + |base| && close == hash + 1 + |digits| && close < |s|
    requires StandsAt(s, i, base) && IsNumeral(base) && ValidBase(base)
    requires StandsAt(s, hash + 1, digits) && |digits| > 0 && All(digits, IsBasedDigit)
    requires s[hash] == '#' && s[close] == '#' && IsDigit(s[i]) && ScanNumber(s, i).end == end
    ensures ScanExponent(s, close + 1).end == end
  {
    BasedIsScanned(s, i, base, hash, digits, close, ScanExponent(s, close + 1).end);
  }

  lemma TailStops(s: string, at: nat, exponent: Option<Exponent>, end: nat)
    requires IsExponent(exponent) && StandsAt(s, at, ExponentText(exponent)) && end == at + |ExponentText(exponent)|
    requires ScanExponent(s, at).end == end
    ensures if exponent.None? then !HasExponent(s[end..], 0) else NotFirst(s[end..], IsNumeralChar)
  {
    TailEnds(s, at, exponent, end);
    StopsInRest(s, end);
  }

  /** A based literal's tail, found where it is scanned. */
  lemma BasedTail(s: string, i: nat, x: Lexeme, text: string, hash: nat, close: nat, end: nat)
    requires x.Based? && WellFormed(x) && text == Spelling(x) && StandsAt(s, i, text) && IsDigit(s[i])
    requires hash == i + |x.base| && close == hash + 1 + |x.digits| && end == i + |text| && ScanNumber(s, i).end == end
    ensures close < |s| && ScanExponent(s, close + 1).end == end
  {
    BasedParts(s, i, x, hash, close, close + 1);
    BasedPartsEnd(s, i, x.base, hash, x.digits, close, end);
  }

  lemma BasedStopsThere(x: Lexeme, rest: string)
    requires x.Based? && if x.exponent.None? then !HasExponent(rest, 0) else NotFirst(rest, IsNumeralChar)
    ensures Stops(x, rest)
  {
  }

  lemma BasedStops(s: string, i: nat, x: Lexeme, end: nat)
    requires x.Based? && WellFormed(x) && StandsAt(s, i, Spelling(x)) && IsDigit(s[i])
    requires end == i + |Spelling(x)| && ScanNumber(s, i).end == end
    ensures Stops(x, s[end..])
  {
    var hash := i + |x.base|;
    var close := hash + 1 + |x.digits|;
    var tail := close + 1;
    assert if x.exponent.None? then !HasExponent(s[end..], 0) else NotFirst(s[end..], IsNumeralChar) by {
      BasedTail(s, i, x, Spelling(x), hash, close, end);
      BasedParts(s, i, x, hash, close, tail);
      TailStops(s, tail, x.exponent, end);
    }
    BasedStopsThere(x, s[end..]);
  }

  // ----------------------------------------------------------- the other lexemes

  lemma QuotedStops(s: string, i: nat, content: string)
    requires All(content, NotNewline) && StandsAt(s, i, Spelling(Quoted(content)))
    requires ScanString(s, i).end == i + |Spelling(Quoted(content))|
    ensures Stops(Quoted(content), s[i + |Spelling(Quoted(content))|..])
  {
    var body, end := DoubleQuotes(content), i + |Spelling(Quoted(content))|;
    assert Spelling(Quoted(content)) == "\"" + body + "\"";
    StandsAtSplit(s, i, "\"" + body, "\"");
    StandsAtSplit(s, i, "\"", body);
    ContentIsRead(s, i + 1, content, "");
    assert s[end - 1] == s[end - 1..end][0];
    StopsInRest(s, end);
  }

  lemma WordStops(s: string, i: nat, text: string, reserved: WordTable)
    requires WellFormed(Word(text)) && StandsAt(s, i, text) && ScanWord(s, i, reserved).end == i + |text|
    ensures Stops(Word(text), s[i + |text|..])
  {
    StopsInRest(s, i + |text|);
  }

  lemma RemarkStops(s: string, i: nat, text: string)
    requires StandsAt(s, i, "--" + text) && ScanComment(s, i).end == i + 2 + |text|
    ensures Stops(Remark(text), s[i + 2 + |text|..])
  {
    StopsInRest(s, i + 2 + |text|);
  }

  lemma MarkStops(s: string, i: nat, kind: TokenKind)
    requires MarkText(kind) != "" && StandsAt(s, i, MarkText(kind))
    requires !(s[i] == '-' && i + 1 < |s| && s[i + 1] == '-')
    requires ScanPunctuation(s, i).end == i + |MarkText(kind)|
    ensures Stops(Mark(kind), s[i + |MarkText(kind)|..])
  {
    var text := MarkText(kind);
    var end := i + |text|;
    assert s[i] == s[i..end][0] == text[0];
    StopsInRest(s, end);
  }

  lemma ApostropheFits(s: string, i: nat, x: Lexeme, attribute: bool)
    requires (x.Character? || x.Apostrophe?) && StandsAt(s, i, Spelling(x))
    requires IsRead(ScanApostrophe(s, i, attribute), KindOf(x, _ => false), i + |Spelling(x)|)
    ensures Fits(x, attribute, s[i + |Spelling(x)|..])
  {
    var end := i + |Spelling(x)|;
    assert s[i] == s[i..end][0];
    if x.Apostrophe? {
      assert CharacterCandidate(s, i) <==> CharacterCandidate("'" + s[end..], 0);
    }
  }

  // ------------------------------------------------------------------ exactly when

  /** The characters a lexeme begins with, which decide what scan is tried. */
  predicate Begins(s: string, i: nat, x: Lexeme)
    requires i < |s|
  {
    match x
    case Word(_) => IsLetter(s[i])
    case Number(_, _, _) => IsDigit(s[i])
    case Based(_, _, _) => IsDigit(s[i])
    case Quoted(_) => s[i] == '"'
    case Character(_) => s[i] == '\''
    case Apostrophe => s[i] == '\''
    case Remark(_) => s[i] == '-' && i + 1 < |s| && s[i + 1] == '-'
    case Mark(kind) => MarkText(kind) != "" && s[i] == MarkText(kind)[0]
  }

  lemma FirstOf(s: string, i: nat, text: string)
    requires StandsAt(s, i, text) && |text| > 0
    ensures i < |s| && s[i] == text[0]
    ensures |text| > 1 ==> i + 1 < |s| && s[i + 1] == text[1]
  {
    assert s[i] == s[i..i + |text|][0];
    assert |text| > 1 ==> s[i + 1] == s[i..i + |text|][1];
  }

  lemma FirstCharacter(s: string, i: nat, x: Lexeme)
    requires WellFormed(x) && StandsAt(s, i, Spelling(x))
    ensures i < |s| && Begins(s, i, x) && !IsWhitespace(s[i])
  {
    match x {
      case Number(whole, fraction, _) => NumberStands(s, i, x, i + |whole|, i + |whole| + |FractionText(fraction)|);
      case Based(base, _, _) =>
        BasedParts(s, i, x, i + |base|, i + |base| + 1 + |x.digits|, i + |base| + 1 + |x.digits| + 1);
        FirstOf(s, i, base);
      case _ => FirstOf(s, i, Spelling(x));
    }
  }

  /** A lexeme that is read as itself stands in front of a text that cannot extend it, where it may stand. */
  lemma OnlyIfItStops(s: string, i: nat, x: Lexeme, reserved: WordTable, attribute: bool)
    requires WellFormed(x) && StandsAt(s, i, Spelling(x))
    requires i < |s| && !IsWhitespace(s[i]) && Begins(s, i, x)
    requires IsRead(Scan(s, i, reserved, attribute), KindOf(x, reserved), i + |Spelling(x)|)
    ensures Stops(x, s[i + |Spelling(x)|..]) && Fits(x, attribute, s[i + |Spelling(x)|..])
  {
    match x {
      case Word(text) => WordStops(s, i, text, reserved);
      case Number(_, _, _) => NumberStops(s, i, x);
      case Based(_, _, _) => BasedStops(s, i, x, i + |Spelling(x)|);
      case Quoted(content) => QuotedStops(s, i, content);
      case Character(_) => ApostropheFits(s, i, x, attribute);
      case Apostrophe => ApostropheFits(s, i, x, attribute);
      case Remark(text) => RemarkStops(s, i, text);
      case Mark(kind) => MarkStops(s, i, kind);
    }
  }

  /** A well-formed lexeme is read as itself exactly when it stops and fits. */
  lemma LexemeIsReadExactly(s: string, i: nat, x: Lexeme, reserved: WordTable, attribute: bool)
    requires WellFormed(x) && StandsAt(s, i, Spelling(x))
    ensures i < |s| && !IsWhitespace(s[i])
    ensures IsRead(Scan(s, i, reserved, attribute), KindOf(x, reserved), i + |Spelling(x)|)
       <==> Stops(x, s[i + |Spelling(x)|..]) && Fits(x, attribute, s[i + |Spelling(x)|..])
  {
    var rest := s[i + |Spelling(x)|..];
    FirstCharacter(s, i, x);
    if Stops(x, rest) && Fits(x, attribute, rest) {
      LexemeIsRead(s, i, x, reserved, attribute);
    }
    if IsRead(Scan(s, i, reserved, attribute), KindOf(x, reserved), i + |Spelling(x)|) {
      OnlyIfItStops(s, i, x, reserved, attribute);
    }
  }

  // --------------------------------------------------------------- whole sources

  ghost predicate NoErrors(ts: seq<Token>) {
    forall k | 0 <= k < |ts| :: !ts[k].kind.Error?
  }

  /** The gap and the items printed from a place of the source on. */
  lemma {:induction false} RestIsPrinted(s: string, reserved: WordTable, p: Pos, last: Option<TokenKind>)
      returns (gap: string, items: seq<Item>)
    requires p.offset <= |s| && NoErrors(LexFrom(s, reserved, p, last))
    ensures All(gap, IsWhitespace) && s[p.offset..] == gap + Render(items, "")
    ensures Printable(items, "", last, reserved)
    decreases |s| - p.offset
  {
    var ts := LexFrom(s, reserved, p, last);
    if p.offset == |s| {
      gap, items := "", [];
    } else if IsWhitespace(s[p.offset]) {
      var below;
      below, items := RestIsPrinted(s, reserved, BumpOne(s, p), last);
      gap := [s[p.offset]] + below;
      SpaceBefore(s, p.offset, below, Render(items, ""));
    } else {
      var sc := Scan(s, p.offset, reserved, IsAttributePrefix(last));
      var next := After(s, p, sc);
      NoErrorsBehind(ts, TokenOf(p, sc), LexFrom(s, reserved, next, Remember(last, sc.kind)));
      var x := EveryScanIsALexeme(s, p.offset, reserved, IsAttributePrefix(last));
      var behind, more := RestIsPrinted(s, reserved, next, Remember(last, KindOf(x, reserved)));
      gap, items := "", [Item(x, behind)] + more;
      TextFirst(s, p.offset, sc.end, x, behind, more, items);
      StopsWhereScanned(s, p.offset, sc.end, x, IsAttributePrefix(last), reserved);
      PrintedFirst(x, behind, more, last, reserved);
    }
  }

  lemma SpaceBefore(s: string, i: nat, gap: string, text: string)
    requires i < |s| && IsWhitespace(s[i]) && All(gap, IsWhitespace) && s[i + 1..] == gap + text
    ensures All([s[i]] + gap, IsWhitespace) && s[i..] == [s[i]] + gap + text
  {
    assert s[i..] == [s[i]] + s[i + 1..];
  }

  lemma NoErrorsBehind(ts: seq<Token>, t: Token, rest: seq<Token>)
    requires NoErrors(ts) && ts == [t] + rest
    ensures !t.kind.Error? && NoErrors(rest)
  {
    assert ts[0] == t;
    assert forall k | 0 <= k < |rest| :: rest[k] == ts[k + 1];
  }

  lemma PrintedFirst(x: Lexeme, gap: string, items: seq<Item>, last: Option<TokenKind>, reserved: WordTable)
    requires WellFormed(x) && All(gap, IsWhitespace)
    requires Stops(x, gap + Render(items, "")) && Fits(x, IsAttributePrefix(last), gap + Render(items, ""))
    requires Printable(items, "", Remember(last, KindOf(x, reserved)), reserved)
    ensures Printable([Item(x, gap)] + items, "", last, reserved)
    ensures Render([Item(x, gap)] + items, "") == Spelling(x) + (gap + Render(items, ""))
  {
    assert ([Item(x, gap)] + items)[1..] == items;
  }

  /** The text from a scanned lexeme on. */
  lemma TextFirst(s: string, i: nat, end: nat, x: Lexeme, gap: string, items: seq<Item>, all: seq<Item>)
    requires i < end <= |s| && Spelling(x) == s[i..end] && s[end..] == gap + Render(items, "")
    requires all == [Item(x, gap)] + items
    ensures s[i..] == "" + Render(all, "")
  {
    assert all[1..] == items;
    assert s[i..] == s[i..end] + s[end..];
  }

  lemma StopsWhereScanned(s: string, i: nat, end: nat, x: Lexeme, attribute: bool, reserved: WordTable)
    requires i < end <= |s| && !IsWhitespace(s[i]) && WellFormed(x) && Spelling(x) == s[i..end]
    requires IsRead(Scan(s, i, reserved, attribute), KindOf(x, reserved), end)
    ensures Stops(x, s[end..]) && Fits(x, attribute, s[end..])
  {
    assert StandsAt(s, i, Spelling(x)) && i + |Spelling(x)| == end;
    LexemeIsReadExactly(s, i, x, reserved, attribute);
  }

  /**
   Every source that lexes without malformed tokens is whitespace and a printed text: so what the round trip
   covers is exactly what the lexer accepts.
   */
  lemma SourceIsPrinted(s: string, reserved: WordTable) returns (gap: string, items: seq<Item>)
    requires NoErrors(Tokens(s, reserved))
    ensures All(gap, IsWhitespace) && s == gap + Render(items, "") && Printable(items, "", None, reserved)
  {
    gap, items := RestIsPrinted(s, reserved, START, None);
    assert s[0..] == s;
  }
}
