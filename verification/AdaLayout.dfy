/** Whole texts: printing lexemes in any layout and lexing the text again, and the other way round. */
module AdaLayout {
  import opened Common
  import opened AdaTokens
  import opened AdaScan
  import opened AdaRoundTrip

  /** A lexeme and the whitespace, possibly none, printed behind it. */
  datatype Item = Item(lexeme: Lexeme, gap: string)

  function Render(items: seq<Item>, tail: string): string {
    if items == [] then tail
    else Spelling(items[0].lexeme) + (items[0].gap + Render(items[1..], tail))
  }

  /** Each lexeme is well-formed, ends where it should, and fits what was printed before it. */
  ghost predicate Printable(items: seq<Item>, tail: string, last: Option<TokenKind>, reserved: WordTable) {
    items == [] ||
    (var x, gap, after := items[0].lexeme, items[0].gap, Render(items[1..], tail);
     && WellFormed(x) && All(gap, IsWhitespace)
     && Stops(x, gap + after) && Fits(x, IsAttributePrefix(last), gap + after)
     && Printable(items[1..], tail, Remember(last, KindOf(x, reserved)), reserved))
  }

  /** The significant kind remembered after the items. */
  function LastAfter(last: Option<TokenKind>, items: seq<Item>, reserved: WordTable): Option<TokenKind>
    decreases |items|
  {
    if items == [] then last
    else LastAfter(Remember(last, KindOf(items[0].lexeme, reserved)), items[1..], reserved)
  }

  /** The token has the kind, and covers the text, of the lexeme. */
  ghost predicate IsReadAs(s: string, t: Token, x: Lexeme, reserved: WordTable) {
    && t.kind == t.effectiveKind == KindOf(x, reserved)
    && t.start <= t.end <= |s| && s[t.start..t.end] == Spelling(x)
  }

  /** `ts` begins with the items, one token each, and goes on with `rest`. */
  ghost predicate Reads(s: string, ts: seq<Token>, items: seq<Item>, rest: seq<Token>, reserved: WordTable) {
    if items == [] then ts == rest
    else |ts| > 0 && IsReadAs(s, ts[0], items[0].lexeme, reserved) && Reads(s, ts[1..], items[1..], rest, reserved)
  }

  lemma {:induction false} GapIsSkipped(s: string, reserved: WordTable, p: Pos, last: Option<TokenKind>, j: nat)
    requires p.offset <= j <= |s| && forall k | p.offset <= k < j :: IsWhitespace(s[k])
    ensures LexFrom(s, reserved, p, last) == LexFrom(s, reserved, BumpTo(s, p, j), last)
    decreases j - p.offset
  {
    if p.offset < j {
      GapIsSkipped(s, reserved, BumpOne(s, p), last, j);
      BumpToCompose(s, p, p.offset + 1, j);
    }
  }

  lemma SuffixSplit(s: string, i: nat, text: string, rest: string)
    requires i <= |s| && s[i..] == text + rest
    ensures StandsAt(s, i, text) && s[i + |text|..] == rest
  {
    var source := s[i..];
    assert s[i..i + |text|] == source[..|text|] == text;
    assert s[i + |text|..] == source[|text|..] == rest;
  }

  /** The gap `s[p..]` begins with is skipped. */
  lemma GapIsRead(s: string, reserved: WordTable, p: Pos, last: Option<TokenKind>, gap: string, after: string)
      returns (q: Pos)
    requires p.offset <= |s| && s[p.offset..] == gap + after && All(gap, IsWhitespace)
    ensures q.offset <= |s| && s[q.offset..] == after
    ensures LexFrom(s, reserved, p, last) == LexFrom(s, reserved, q, last)
  {
    var j := p.offset + |gap|;
    SuffixSplit(s, p.offset, gap, after);
    assert forall k | p.offset <= k < j :: s[k] == s[p.offset..j][k - p.offset];
    GapIsSkipped(s, reserved, p, last, j);
    q := BumpTo(s, p, j);
  }

  /** The token at `p`, and what is lexed behind it. */
  lemma FirstToken(s: string, reserved: WordTable, p: Pos, last: Option<TokenKind>, x: Lexeme, rest: string)
      returns (next: Pos)
    requires p.offset <= |s| && s[p.offset..] == Spelling(x) + rest
    requires WellFormed(x) && Stops(x, rest) && Fits(x, IsAttributePrefix(last), rest)
    ensures next.offset <= |s| && s[next.offset..] == rest
    ensures var ts := LexFrom(s, reserved, p, last);
            && IsReadAs(s, ts[0], x, reserved)
            && ts[1..] == LexFrom(s, reserved, next, Remember(last, KindOf(x, reserved)))
  {
    var i, attribute := p.offset, IsAttributePrefix(last);
    SuffixSplit(s, i, Spelling(x), rest);
    LexemeIsRead(s, i, x, reserved, attribute);
    var sc := Scan(s, i, reserved, attribute);
    next := After(s, p, sc);
    assert LexFrom(s, reserved, p, last) == [TokenOf(p, sc)] + LexFrom(s, reserved, next, Remember(last, sc.kind));
  }

  /** One item: its token, then the gap. */
  lemma ItemIsRead(s: string, reserved: WordTable, p: Pos, last: Option<TokenKind>, x: Lexeme, gap: string, after: string)
      returns (q: Pos)
    requires p.offset <= |s| && s[p.offset..] == Spelling(x) + (gap + after)
    requires WellFormed(x) && All(gap, IsWhitespace)
    requires Stops(x, gap + after) && Fits(x, IsAttributePrefix(last), gap + after)
    ensures q.offset <= |s| && s[q.offset..] == after
    ensures var ts := LexFrom(s, reserved, p, last);
            && IsReadAs(s, ts[0], x, reserved)
            && ts[1..] == LexFrom(s, reserved, q, Remember(last, KindOf(x, reserved)))
  {
    var next := FirstToken(s, reserved, p, last, x, gap + after);
    q := GapIsRead(s, reserved, next, Remember(last, KindOf(x, reserved)), gap, after);
  }

  /** A printed text is read back item by item, whatever text follows it. */
  lemma {:induction false} ItemsAreRead(s: string, reserved: WordTable, p: Pos, last: Option<TokenKind>,
                                        items: seq<Item>, tail: string)
      returns (q: Pos)
    requires p.offset <= |s| && s[p.offset..] == Render(items, tail)
    requires Printable(items, tail, last, reserved)
    ensures q.offset <= |s| && s[q.offset..] == tail
    ensures Reads(s, LexFrom(s, reserved, p, last), items,
                  LexFrom(s, reserved, q, LastAfter(last, items, reserved)), reserved)
    decreases |items|
  {
    if items == [] {
      q := p;
    } else {
      var next := ItemIsRead(s, reserved, p, last, items[0].lexeme, items[0].gap, Render(items[1..], tail));
      q := ItemsAreRead(s, reserved, next, Remember(last, KindOf(items[0].lexeme, reserved)), items[1..], tail);
    }
  }

  lemma {:induction false} ReadsAt(s: string, ts: seq<Token>, items: seq<Item>, rest: seq<Token>, reserved: WordTable)
    requires Reads(s, ts, items, rest, reserved)
    ensures |ts| == |items| + |rest| && ts[|items|..] == rest
    ensures forall k | 0 <= k < |items| :: IsReadAs(s, ts[k], items[k].lexeme, reserved)
    decreases |items|
  {
    if items != [] {
      ReadsAt(s, ts[1..], items[1..], rest, reserved);
      assert forall k | 0 < k < |items| :: ts[k] == ts[1..][k - 1] && items[k] == items[1..][k - 1];
    }
  }

  /** Lexing a printed text under the same table gives back exactly the lexemes printed, and one Eof. */
  lemma PrintedTextIsReadBack(items: seq<Item>, reserved: WordTable)
    requires Printable(items, "", None, reserved)
    ensures var s := Render(items, "");
            var ts := Tokens(s, reserved);
            && |ts| == |items| + 1 && ts[|items|].kind == Eof
            && forall k | 0 <= k < |items| :: IsReadAs(s, ts[k], items[k].lexeme, reserved)
  {
    var s := Render(items, "");
    assert s[0..] == s;
    var q := ItemsAreRead(s, reserved, START, None, items, "");
    assert q.offset == |s|;
    ReadsAt(s, Tokens(s, reserved), items, [EofToken(q)], reserved);
  }

  // ------------------------------------------------------- one space in between

  /** One space behind every lexeme, and a newline behind a comment. */
  function Spaced(xs: seq<Lexeme>): (items: seq<Item>)
    ensures |items| == |xs|
    ensures forall k | 0 <= k < |xs| :: items[k].lexeme == xs[k]
  {
    if xs == [] then [] else [Item(xs[0], if xs[0].Remark? then "\n" else " ")] + Spaced(xs[1..])
  }

  /** Marks stand only behind an attribute prefix and character literals never do. */
  ghost predicate Ordered(xs: seq<Lexeme>, last: Option<TokenKind>, reserved: WordTable) {
    xs == [] ||
    (&& WellFormed(xs[0])
     && (xs[0].Apostrophe? ==> IsAttributePrefix(last))
     && (xs[0].Character? ==> !IsAttributePrefix(last))
     && Ordered(xs[1..], Remember(last, KindOf(xs[0], reserved)), reserved))
  }

  lemma SpaceStops(x: Lexeme, after: string)
    requires |after| > 0 && (after[0] == '\n' || (after[0] == ' ' && !x.Remark?))
    ensures Stops(x, after)
  {
  }

  lemma {:induction false} SpacedIsPrintable(xs: seq<Lexeme>, tail: string, last: Option<TokenKind>, reserved: WordTable)
    requires Ordered(xs, last, reserved)
    ensures Printable(Spaced(xs), tail, last, reserved)
    decreases |xs|
  {
    if xs != [] {
      SpacedIsPrintable(xs[1..], tail, Remember(last, KindOf(xs[0], reserved)), reserved);
      var items := Spaced(xs);
      assert items[1..] == Spaced(xs[1..]);
      var after := items[0].gap + Render(items[1..], tail);
      assert after[0] == (if xs[0].Remark? then '\n' else ' ');
      SpaceStops(xs[0], after);
    }
  }

  lemma SpacedTextIsReadBack(xs: seq<Lexeme>, reserved: WordTable)
    requires Ordered(xs, None, reserved)
    ensures var s := Render(Spaced(xs), "");
            var ts := Tokens(s, reserved);
            && |ts| == |xs| + 1 && ts[|xs|].kind == Eof
            && forall k | 0 <= k < |xs| :: IsReadAs(s, ts[k], xs[k], reserved)
  {
    SpacedIsPrintable(xs, "", None, reserved);
    PrintedTextIsReadBack(Spaced(xs), reserved);
  }

  // ------------------------------------------------- every token is some lexeme

  lemma {:induction false} ScannedStringIsDoubled(s: string, j: nat, content: string) returns (body: string)
    requires j <= |s| && StringBody(s, j, content).closed
    ensures var q := StringBody(s, j, content);
            && q.content == content + body && All(body, NotNewline)
            && s[j..q.end] == DoubleQuotes(body) + "\""
    decreases |s| - j
  {
    var end := StringBody(s, j, content).end;
    if s[j] != '"' {
      var rest := ScannedStringIsDoubled(s, j + 1, content + [s[j]]);
      body := [s[j]] + rest;
      assert content + [s[j]] + rest == content + body && body[1..] == rest;
      assert s[j..end] == [s[j]] + s[j + 1..end];
    } else if j + 1 < |s| && s[j + 1] == '"' {
      var rest := ScannedStringIsDoubled(s, j + 2, content + ['"']);
      body := ['"'] + rest;
      assert content + ['"'] + rest == content + body && body[1..] == rest;
      assert s[j..end] == ['"', '"'] + s[j + 2..end];
    } else {
      body := "";
      assert content + body == content;
    }
  }

  lemma ScannedExponent(s: string, i: nat) returns (e: Option<Exponent>)
    requires i <= |s|
    ensures IsExponent(e) && e.Some? == ScanExponent(s, i).present
    ensures ExponentText(e) == s[i..ScanExponent(s, i).end]
  {
    var end := ScanExponent(s, i).end;
    if ScanExponent(s, i).present {
      var digits := ExponentDigits(s, i);
      e := Some(Exponent(s[i], s[i + 1..digits], s[digits..end]));
      assert [s[i]] + s[i + 1..digits] + s[digits..end] == s[i..end];
    } else {
      e := None;
    }
  }

  lemma Slices(s: string, i: nat, j: nat, k: nat)
    requires i <= j <= k <= |s|
    ensures s[i..j] + s[j..k] == s[i..k]
  {
  }

  lemma ScannedDecimal(s: string, i: nat, reserved: WordTable) returns (x: Lexeme)
    requires i < |s| && IsDigit(s[i])
    requires var whole := SkipWhile(s, i, IsNumeralChar); whole < |s| ==> s[whole] != '#'
    ensures var sc := ScanNumber(s, i);
            WellFormed(x) && Spelling(x) == s[i..sc.end] && KindOf(x, reserved) == sc.kind
  {
    var whole := SkipWhile(s, i, IsNumeralChar);
    var mantissa := MantissaEnd(s, whole);
    var e := ScannedExponent(s, mantissa);
    var fraction := if HasFraction(s, whole) then Some(s[whole + 1..mantissa]) else None;
    x := Number(s[i..whole], fraction, e);
    if fraction.Some? {
      assert FractionText(fraction) == s[whole..whole + 1] + s[whole + 1..mantissa];
      Slices(s, whole, whole + 1, mantissa);
    }
    Slices(s, i, whole, mantissa);
    Slices(s, i, mantissa, ScanExponent(s, mantissa).end);
    assert Spelling(x) == s[i..whole] + FractionText(fraction) + ExponentText(e);
  }

  lemma BetweenHashes(s: string, i: nat, hash: nat, close: nat)
    requires i <= hash < close < |s| && s[hash] == '#' && s[close] == '#'
    ensures s[i..hash] + "#" + s[hash + 1..close] + "#" == s[i..close + 1]
  {
  }

  lemma BasedPartsSpell(s: string, i: nat, hash: nat, close: nat, e: Option<Exponent>, end: nat)
    requires i < hash < close < end <= |s| && s[hash] == '#' && s[close] == '#'
    requires ExponentText(e) == s[close + 1..end]
    ensures Spelling(Based(s[i..hash], s[hash + 1..close], e)) == s[i..end]
  {
    BetweenHashes(s, i, hash, close);
    Slices(s, i, close + 1, end);
  }

  lemma BasedPartsAreWellFormed(s: string, i: nat, hash: nat, close: nat, e: Option<Exponent>)
    requires i < hash < |s| && IsDigit(s[i]) && SkipWhile(s, i, IsNumeralChar) == hash
    requires WellFormedBased(s, i, hash) && BasedClose(s, hash) == close && IsExponent(e)
    ensures WellFormed(Based(s[i..hash], s[hash + 1..close], e))
  {
  }

  lemma ScanBasedEnds(s: string, i: nat, hash: nat, close: nat)
    requires i < hash < |s| && WellFormedBased(s, i, hash) && BasedClose(s, hash) == close
    ensures var end := ScanExponent(s, close + 1).end;
            ScanBased(s, i, hash).end == end && ScanBased(s, i, hash).kind == BasedLiteral(s[i..end])
  {
  }

  lemma ScannedBased(s: string, i: nat, hash: nat) returns (x: Lexeme)
    requires i < hash < |s| && IsDigit(s[i]) && SkipWhile(s, i, IsNumeralChar) == hash
    requires s[hash] == '#' && WellFormedBased(s, i, hash)
    ensures var sc := ScanBased(s, i, hash);
            x.Based? && WellFormed(x) && Spelling(x) == s[i..sc.end] && sc.kind == BasedLiteral(s[i..sc.end])
  {
    var close := BasedClose(s, hash);
    var e := ScannedExponent(s, close + 1);
    x := Based(s[i..hash], s[hash + 1..close], e);
    BasedPartsAreWellFormed(s, i, hash, close, e);
    var end := ScanExponent(s, close + 1).end;
    BasedPartsSpell(s, i, hash, close, e, end);
    ScanBasedEnds(s, i, hash, close);
  }

  lemma ScannedNumber(s: string, i: nat, reserved: WordTable) returns (x: Lexeme)
    requires i < |s| && IsDigit(s[i]) && !ScanNumber(s, i).kind.Error?
    ensures var sc := ScanNumber(s, i);
            WellFormed(x) && Spelling(x) == s[i..sc.end] && KindOf(x, reserved) == sc.kind
  {
    var whole := SkipWhile(s, i, IsNumeralChar);
    if whole < |s| && s[whole] == '#' {
      x := ScannedBased(s, i, whole);
    } else {
      x := ScannedDecimal(s, i, reserved);
    }
  }

  lemma ScannedMark(s: string, i: nat)
    requires i < |s| && !ScanPunctuation(s, i).kind.Error?
    ensures var sc := ScanPunctuation(s, i); sc.end <= |s| && MarkText(sc.kind) == s[i..sc.end] != ""
  {
  }

  lemma ScannedRemark(s: string, i: nat)
    requires i + 1 < |s| && s[i] == '-' && s[i + 1] == '-'
    ensures var end := ScanComment(s, i).end;
            i + 2 <= end <= |s| && All(s[i + 2..end], NotNewline) && "--" + s[i + 2..end] == s[i..end]
  {
  }

  lemma ScannedQuoted(s: string, i: nat) returns (content: string)
    requires i < |s| && s[i] == '"' && !ScanString(s, i).kind.Error?
    ensures var sc := ScanString(s, i);
            All(content, NotNewline) && sc.kind == StringLiteral(content) && Spelling(Quoted(content)) == s[i..sc.end]
  {
    content := ScannedStringIsDoubled(s, i + 1, "");
    var end := ScanString(s, i).end;
    assert "" + content == content;
    assert "\"" + (DoubleQuotes(content) + "\"") == "\"" + DoubleQuotes(content) + "\"";
    assert "\"" + s[i + 1..end] == s[i..end];
  }

  lemma ScannedApostrophe(s: string, i: nat, attribute: bool) returns (x: Lexeme)
    requires i < |s| && s[i] == '\''
    ensures var sc := ScanApostrophe(s, i, attribute);
            WellFormed(x) && Spelling(x) == s[i..sc.end] && KindOf(x, _ => false) == sc.kind
            && (x.Apostrophe? || x.Character?)
  {
    x := if ScanApostrophe(s, i, attribute).kind == Tick then Apostrophe else Character(s[i + 1]);
  }

  /** Whatever a scan reads without error is the spelling of a well-formed lexeme of that kind. */
  lemma EveryScanIsALexeme(s: string, i: nat, reserved: WordTable, attribute: bool) returns (x: Lexeme)
    requires i < |s| && !IsWhitespace(s[i]) && !Scan(s, i, reserved, attribute).kind.Error?
    ensures var sc := Scan(s, i, reserved, attribute);
            WellFormed(x) && Spelling(x) == s[i..sc.end] && KindOf(x, reserved) == sc.kind
  {
    var end := Scan(s, i, reserved, attribute).end;
    if s[i] == '-' && i + 1 < |s| && s[i + 1] == '-' {
      ScannedRemark(s, i);
      x := Remark(s[i + 2..end]);
    } else if s[i] == '"' {
      var content := ScannedQuoted(s, i);
      x := Quoted(content);
    } else if s[i] == '\'' {
      x := ScannedApostrophe(s, i, attribute);
    } else if IsDigit(s[i]) {
      x := ScannedNumber(s, i, reserved);
    } else if IsLetter(s[i]) {
      x := Word(s[i..end]);
    } else {
      ScannedMark(s, i);
      x := Mark(ScanPunctuation(s, i).kind);
    }
  }
}
