/** Every source is tiled by its tokens, and every recorded line and column is accounted for. */
module AdaTiling {
  import opened Common
  import opened AdaTokens
  import opened AdaScan

  // -------------------------------------------------------------------- tiling

  /** `ts` covers `s` from `from` on: ordered, disjoint, non-empty tokens, whitespace between, one Eof. */
  ghost predicate Tiles(s: string, ts: seq<Token>, from: nat) {
    && |ts| > 0
    && from <= ts[0].start <= ts[0].end <= |s|
    && (forall c | from <= c < ts[0].start :: IsWhitespace(s[c]))
    && ts[0].effectiveKind == ts[0].kind
    && if |ts| == 1 then ts[0].kind == Eof && ts[0].start == |s|
       else ts[0].kind != Eof && ts[0].start < ts[0].end && Tiles(s, ts[1..], ts[0].end)
  }

  lemma TilesFromEarlier(s: string, ts: seq<Token>, from: nat)
    requires from < |s| && IsWhitespace(s[from]) && Tiles(s, ts, from + 1)
    ensures Tiles(s, ts, from)
  {
  }

  lemma {:induction false} LexFromTiles(s: string, reserved: WordTable, p: Pos, last: Option<TokenKind>)
    requires p.offset <= |s|
    ensures Tiles(s, LexFrom(s, reserved, p, last), p.offset)
    decreases |s| - p.offset
  {
    if p.offset < |s| {
      if IsWhitespace(s[p.offset]) {
        LexFromTiles(s, reserved, BumpOne(s, p), last);
        TilesFromEarlier(s, LexFrom(s, reserved, p, last), p.offset);
      } else {
        var sc := Scan(s, p.offset, reserved, IsAttributePrefix(last));
        LexFromTiles(s, reserved, After(s, p, sc), Remember(last, sc.kind));
        var ts := LexFrom(s, reserved, p, last);
        assert ts[1..] == LexFrom(s, reserved, After(s, p, sc), Remember(last, sc.kind));
      }
    }
  }

  /** Every source is tiled by its tokens. */
  lemma SourceIsTiled(s: string, reserved: WordTable)
    ensures Tiles(s, Tokens(s, reserved), 0)
  {
    LexFromTiles(s, reserved, START, None);
  }

  /** What tiling means for any two tokens, and for any character of the source. */
  lemma {:induction false} TiledTokensAreDisjoint(s: string, ts: seq<Token>, from: nat, j: nat, k: nat)
    requires Tiles(s, ts, from) && j < k < |ts|
    ensures from <= ts[j].start < ts[j].end <= ts[k].start <= ts[k].end <= |s|
    ensures ts[j].kind != Eof && (ts[k].kind == Eof <==> k == |ts| - 1)
    decreases ts
  {
    var rest := ts[1..];
    if j > 0 {
      TiledTokensAreDisjoint(s, rest, ts[0].end, j - 1, k - 1);
    } else if k > 1 {
      TiledTokensAreDisjoint(s, rest, ts[0].end, 0, k - 1);
    }
  }

  lemma {:induction false} EveryCharacterIsCovered(s: string, ts: seq<Token>, from: nat, c: nat)
    requires Tiles(s, ts, from) && from <= c < |s|
    ensures IsWhitespace(s[c]) || exists k :: 0 <= k < |ts| && ts[k].start <= c < ts[k].end
    decreases ts
  {
    if ts[0].end <= c {
      var rest := ts[1..];
      EveryCharacterIsCovered(s, rest, ts[0].end, c);
      if !IsWhitespace(s[c]) {
        var k :| 0 <= k < |rest| && rest[k].start <= c < rest[k].end;
        assert ts[k + 1] == rest[k];
      }
    } else if c >= ts[0].start {
      assert ts[0].start <= c < ts[0].end;
    }
  }

  // -------------------------------------------------------------- byte offsets

  function Utf8Length(c: char): nat {
    var n := c as int;
    if n < 0x80 then 1 else if n < 0x800 then 2 else if n < 0x10000 then 3 else 4
  }

  /** The source's byte offset of the character offset `i`. */
  function ByteOffset(s: string, i: nat): nat
    requires i <= |s|
  {
    if i == 0 then 0 else ByteOffset(s, i - 1) + Utf8Length(s[i - 1])
  }

  /** Character offsets and byte offsets order spans alike, so tiling holds of the byte spans too. */
  lemma {:induction false} ByteOffsetsKeepOrder(s: string, i: nat, j: nat)
    requires i <= j <= |s|
    ensures ByteOffset(s, i) <= ByteOffset(s, j)
    ensures ByteOffset(s, i) == ByteOffset(s, j) <==> i == j
  {
    if i < j {
      ByteOffsetsKeepOrder(s, i, j - 1);
    }
  }

  // ---------------------------------------------------------- lines and columns

  function Newlines(s: string, i: nat): nat
    requires i <= |s|
  {
    if i == 0 then 0 else Newlines(s, i - 1) + if s[i - 1] == '\n' then 1 else 0
  }

  /** The offset just past the last newline before `i`. */
  function LineStart(s: string, i: nat): (r: nat)
    requires i <= |s|
    ensures r <= i
  {
    if i == 0 then 0 else if s[i - 1] == '\n' then i else LineStart(s, i - 1)
  }

  /** The token is a numeric literal written without an exponent. */
  predicate LacksExponent(kind: TokenKind) {
    match kind
    case IntLiteral(_) => true
    case RealLiteral(text) => 'e' !in text && 'E' !in text
    case BasedLiteral(text) => |text| > 0 && text[|text| - 1] == '#'
    case _ => false
  }

  /** How many characters the lexer gave back after `t`: an exponent letter, and its sign, with no digits. */
  function GivenBack(s: string, t: Token): nat {
    if LacksExponent(t.kind) && IsExponentLetter(s, t.end) then ExponentDigits(s, t.end) - t.end else 0
  }

  /** All that was given back by the tokens of `ts` starting at or after `from`. */
  function Drift(s: string, ts: seq<Token>, from: nat): nat {
    if ts == [] then 0
    else
      var t := ts[|ts| - 1];
      Drift(s, ts[..|ts| - 1], from) + if t.start >= from then GivenBack(s, t) else 0
  }

  /** Where a token of a line is recorded, the tokens before it being `before`. */
  ghost predicate Located(s: string, before: seq<Token>, offset: nat, line: nat, col: nat)
    requires offset <= |s|
  {
    && line == 1 + Newlines(s, offset)
    && col == 1 + (offset - LineStart(s, offset)) + Drift(s, before, LineStart(s, offset))
  }

  ghost predicate AllStartBefore(ts: seq<Token>, limit: nat) {
    forall k | 0 <= k < |ts| :: ts[k].start < limit
  }

  lemma {:induction false} NoDriftYet(s: string, ts: seq<Token>, from: nat)
    requires AllStartBefore(ts, from)
    ensures Drift(s, ts, from) == 0
  {
    if ts != [] {
      assert AllStartBefore(ts[..|ts| - 1], from);
      NoDriftYet(s, ts[..|ts| - 1], from);
    }
  }

  lemma {:induction false} StringBodyStaysOnLine(s: string, j: nat, content: string)
    requires j <= |s|
    ensures forall k | j <= k < StringBody(s, j, content).end :: s[k] != '\n'
    decreases |s| - j
  {
    if j == |s| || s[j] == '\n' {
    } else if s[j] != '"' {
      StringBodyStaysOnLine(s, j + 1, content + [s[j]]);
    } else if j + 1 < |s| && s[j + 1] == '"' {
      StringBodyStaysOnLine(s, j + 2, content + ['"']);
    }
  }

  lemma ExponentStaysOnLine(s: string, i: nat)
    requires i <= |s|
    ensures forall k | i <= k < ScanExponent(s, i).reach :: s[k] != '\n'
  {
  }

  lemma BasedStaysOnLine(s: string, i: nat, hash: nat)
    requires i < hash < |s| && s[hash] == '#'
    ensures forall k | hash <= k < ScanBased(s, i, hash).reach :: s[k] != '\n'
  {
    var close := BasedClose(s, hash);
    assert forall k | hash < k < close :: IsBasedDigit(s[k]);
    if WellFormedBased(s, i, hash) {
      ExponentStaysOnLine(s, close + 1);
    }
  }

  lemma DecimalStaysOnLine(s: string, i: nat, whole: nat)
    requires i < whole <= |s|
    ensures forall k | whole <= k < ScanDecimal(s, i, whole).reach :: s[k] != '\n'
  {
    assert forall k | whole < k < MantissaEnd(s, whole) :: IsNumeralChar(s[k]);
    ExponentStaysOnLine(s, MantissaEnd(s, whole));
  }

  lemma NumberStaysOnLine(s: string, i: nat)
    requires i < |s| && IsDigit(s[i])
    ensures forall k | i <= k < ScanNumber(s, i).reach :: s[k] != '\n'
  {
    var whole := SkipWhile(s, i, IsNumeralChar);
    if whole < |s| && s[whole] == '#' {
      BasedStaysOnLine(s, i, whole);
    } else {
      DecimalStaysOnLine(s, i, whole);
    }
  }

  /** No token, and nothing read past one, holds a newline. */
  lemma ScanStaysOnLine(s: string, i: nat, reserved: WordTable, attribute: bool)
    requires i < |s| && !IsWhitespace(s[i])
    ensures forall k | i <= k < Scan(s, i, reserved, attribute).reach :: s[k] != '\n'
  {
    if s[i] == '"' {
      StringBodyStaysOnLine(s, i + 1, "");
    } else if IsDigit(s[i]) {
      NumberStaysOnLine(s, i);
    }
  }

  lemma RealExponentIsVisible(s: string, i: nat, whole: nat)
    requires i < whole <= |s| && forall k | i <= k < whole :: IsNumeralChar(s[k])
    ensures var r := ScanDecimal(s, i, whole);
            r.reach - r.end == if LacksExponent(r.kind) && IsExponentLetter(s, r.end) then ExponentDigits(s, r.end) - r.end else 0
  {
    var mantissa := MantissaEnd(s, whole);
    var e := ScanExponent(s, mantissa);
    var text := s[i..e.end];
    assert forall k | i <= k < mantissa :: IsNumeralChar(s[k]) || s[k] == '.';
    if e.present {
      assert text[mantissa - i] == s[mantissa];
    } else {
      assert forall c | c in text :: IsNumeralChar(c) || c == '.';
    }
  }

  lemma BasedExponentIsVisible(s: string, i: nat, hash: nat)
    requires i < hash < |s|
    ensures var r := ScanBased(s, i, hash);
            r.reach - r.end == if LacksExponent(r.kind) && IsExponentLetter(s, r.end) then ExponentDigits(s, r.end) - r.end else 0
  {
    var close := BasedClose(s, hash);
    if WellFormedBased(s, i, hash) {
      var e := ScanExponent(s, close + 1);
      var text := s[i..e.end];
      assert text[|text| - 1] == s[e.end - 1];
      if e.present {
        assert IsNumeralChar(s[e.end - 1]);
      }
    }
  }

  /** What a scan bumped beyond its token is exactly what can be seen to have been given back. */
  lemma RollbackIsGivenBack(s: string, p: Pos, reserved: WordTable, attribute: bool)
    requires p.offset < |s| && !IsWhitespace(s[p.offset])
    ensures var sc := Scan(s, p.offset, reserved, attribute); sc.reach == sc.end + GivenBack(s, TokenOf(p, sc))
  {
    var i := p.offset;
    if IsDigit(s[i]) {
      var whole := SkipWhile(s, i, IsNumeralChar);
      if whole < |s| && s[whole] == '#' {
        BasedExponentIsVisible(s, i, whole);
      } else {
        RealExponentIsVisible(s, i, whole);
      }
    }
  }

  lemma {:induction false} BumpWithinLine(s: string, p: Pos, j: nat)
    requires p.offset <= j <= |s| && forall k | p.offset <= k < j :: s[k] != '\n'
    ensures BumpTo(s, p, j) == Pos(j, p.line, p.col + (j - p.offset))
    ensures Newlines(s, j) == Newlines(s, p.offset) && LineStart(s, j) == LineStart(s, p.offset)
  {
    if p.offset < j {
      BumpWithinLine(s, p, j - 1);
    }
  }

  lemma LocatedAfterWhitespace(s: string, before: seq<Token>, p: Pos)
    requires p.offset < |s| && AllStartBefore(before, p.offset)
    requires Located(s, before, p.offset, p.line, p.col)
    ensures var q := BumpOne(s, p); Located(s, before, q.offset, q.line, q.col)
  {
    if s[p.offset] == '\n' {
      NoDriftYet(s, before, p.offset + 1);
    }
  }

  lemma LocatedAfterToken(s: string, before: seq<Token>, p: Pos, reserved: WordTable, attribute: bool)
    requires p.offset < |s| && !IsWhitespace(s[p.offset])
    requires Located(s, before, p.offset, p.line, p.col)
    ensures var sc := Scan(s, p.offset, reserved, attribute);
            var q := After(s, p, sc);
            Located(s, before + [TokenOf(p, sc)], q.offset, q.line, q.col)
  {
    var sc := Scan(s, p.offset, reserved, attribute);
    ScanStaysOnLine(s, p.offset, reserved, attribute);
    RollbackIsGivenBack(s, p, reserved, attribute);
    BumpWithinLine(s, p, sc.reach);
    BumpWithinLine(s, p, sc.end);
    var t := TokenOf(p, sc);
    assert (before + [t])[..|before + [t]| - 1] == before;
  }

  ghost predicate AllLocated(s: string, before: seq<Token>, ts: seq<Token>)
    decreases ts
  {
    ts == [] || (var t := ts[0];
                 && t.start <= |s|
                 && Located(s, before, t.start, t.line, t.col)
                 && AllLocated(s, before + [t], ts[1..]))
  }

  lemma {:induction false} LexFromLocates(s: string, reserved: WordTable, p: Pos, last: Option<TokenKind>, before: seq<Token>)
    requires p.offset <= |s| && AllStartBefore(before, p.offset)
    requires Located(s, before, p.offset, p.line, p.col)
    ensures AllLocated(s, before, LexFrom(s, reserved, p, last))
    decreases |s| - p.offset
  {
    if p.offset < |s| {
      if IsWhitespace(s[p.offset]) {
        LocatedAfterWhitespace(s, before, p);
        LexFromLocates(s, reserved, BumpOne(s, p), last, before);
      } else {
        var attribute := IsAttributePrefix(last);
        var sc := Scan(s, p.offset, reserved, attribute);
        var next := After(s, p, sc);
        var t := TokenOf(p, sc);
        LocatedAfterToken(s, before, p, reserved, attribute);
        LexFromLocates(s, reserved, next, Remember(last, sc.kind), before + [t]);
        assert LexFrom(s, reserved, p, last)[1..] == LexFrom(s, reserved, next, Remember(last, sc.kind));
      }
    }
  }

  lemma {:induction false} LocatedAt(s: string, before: seq<Token>, ts: seq<Token>, k: nat)
    requires AllLocated(s, before, ts) && k < |ts|
    ensures ts[k].start <= |s| && Located(s, before + ts[..k], ts[k].start, ts[k].line, ts[k].col)
    decreases ts
  {
    if k == 0 {
      assert before + ts[..0] == before;
    } else {
      LocatedAt(s, before + [ts[0]], ts[1..], k - 1);
      assert before + [ts[0]] + ts[1..][..k - 1] == before + ts[..k];
    }
  }

  /** Every line is exact; every column is exact but for what exponent rollbacks gave back on its line. */
  lemma PositionsAreAccountedFor(s: string, reserved: WordTable, k: nat)
    requires k < |Tokens(s, reserved)|
    ensures var ts := Tokens(s, reserved);
            ts[k].start <= |s| && Located(s, ts[..k], ts[k].start, ts[k].line, ts[k].col)
  {
    LexFromLocates(s, reserved, START, None, []);
    LocatedAt(s, [], Tokens(s, reserved), k);
    assert [] + Tokens(s, reserved)[..k] == Tokens(s, reserved)[..k];
  }

  /** Over `1e` the word behind the number is recorded one column too far: a bare exponent letter is given back. */
  lemma ColumnRunsAhead(reserved: WordTable)
    ensures var ts := Tokens("1e", reserved); |ts| == 3 && ts[1].start == 1 && ts[1].line == 1 && ts[1].col == 3
  {
    var s := "1e";
    assert SkipWhile(s, 0, IsNumeralChar) == 1;
    assert ScanExponent(s, 1) == ExponentScan(false, 1, 2);
    var number := Scan(s, 0, reserved, false);
    assert number.end == 1 && number.reach == 2 && number.kind.IntLiteral?;
    var p := After(s, START, number);
    assert BumpTo(s, START, 1) == Pos(1, 1, 2) && p == Pos(1, 1, 3);
    var word := Scan(s, 1, reserved, IsAttributePrefix(Some(number.kind)));
    assert SkipWhile(s, 2, IsIdentifierContinue) == 2 && word.end == 2 && word.reach == 2;
    var q := After(s, p, word);
    var last := Remember(Some(number.kind), word.kind);
    assert LexFrom(s, reserved, q, last) == [EofToken(q)];
    assert LexFrom(s, reserved, p, Some(number.kind)) == [TokenOf(p, word)] + [EofToken(q)];
  }
}
