/** The Ada lexer as the source writes it: one object whose fields every scan updates in place. */
module AdaLexer {
  import opened Common
  import opened AdaTokens
  import opened AdaScan

  lemma PushedThenRest<T>(done: seq<T>, t: T, rest: seq<T>)
    ensures done + ([t] + rest) == (done + [t]) + rest
  {
  }

  /** Pushing the token scanned at `p` takes the first token off what is still to come. */
  lemma PushedToken(s: string, reserved: WordTable, p: Pos, last: Option<TokenKind>, done: seq<Token>)
    requires p.offset < |s| && !IsWhitespace(s[p.offset])
    ensures var sc := Scan(s, p.offset, reserved, IsAttributePrefix(last));
            var next := LexFrom(s, reserved, After(s, p, sc), Remember(last, sc.kind));
            done + LexFrom(s, reserved, p, last) == (done + [TokenOf(p, sc)]) + next
  {
    var sc := Scan(s, p.offset, reserved, IsAttributePrefix(last));
    PushedThenRest(done, TokenOf(p, sc), LexFrom(s, reserved, After(s, p, sc), Remember(last, sc.kind)));
  }

  lemma SkippedSpace(s: string, reserved: WordTable, p: Pos, last: Option<TokenKind>)
    requires p.offset < |s| && IsWhitespace(s[p.offset])
    ensures LexFrom(s, reserved, p, last) == LexFrom(s, reserved, BumpTo(s, p, p.offset + 1), last)
  {
  }

  class Lexer {
    const source: string
    const reserved: WordTable
    var position: nat
    var line: nat
    var col: nat
    var tokens: seq<Token>
    var lastSignificant: Option<TokenKind>

    ghost predicate Valid()
      reads this
    {
      position <= |source|
    }

    function Here(): Pos
      reads this
    {
      Pos(position, line, col)
    }

    /** The scan `sc`, begun at `p` with `ts` pushed and `last` remembered, has just been completed. */
    ghost predicate Emitted(p: Pos, ts: seq<Token>, last: Option<TokenKind>, sc: Scanned)
      requires p.offset <= sc.reach <= |source|
      reads this
    {
      && Here() == After(source, p, sc)
      && tokens == ts + [TokenOf(p, sc)]
      && lastSignificant == Remember(last, sc.kind)
    }

    constructor (source: string, dialect: AdaStandard)
      ensures Valid() && this.source == source && reserved == ReservedWords(dialect)
      ensures Here() == START && tokens == [] && lastSignificant == None
    {
      this.source := source;
      this.reserved := ReservedWords(dialect);
      position, line, col := 0, 1, 1;
      tokens := [];
      lastSignificant := None;
    }

    function PeekChar(): Option<char>
      reads this
    {
      if position < |source| then Some(source[position]) else None
    }

    function PeekNextChar(): Option<char>
      reads this
    {
      if position + 1 < |source| then Some(source[position + 1]) else None
    }

    /** The line and column are those of bumping, one character at a time, from `from` to here. */
    ghost predicate Reached(from: Pos)
      reads this
    {
      from.offset <= position <= |source| && Here() == BumpTo(source, from, position)
    }

    method Bump(ghost from: Pos) returns (ch: Option<char>)
      requires Reached(from)
      modifies this`position, this`line, this`col
      ensures Reached(from) && ch == old(PeekChar())
      ensures position == if ch.Some? then old(position) + 1 else old(position)
    {
      ch := PeekChar();
      if ch == None {
        return;
      }
      position := position + 1;
      if ch.value == '\n' {
        line, col := line + 1, 1;
      } else {
        col := col + 1;
      }
    }

    /** Bumps over the run of characters satisfying `p`, as the source's inner loops do. */
    method BumpWhile(ghost from: Pos, p: char -> bool)
      requires Reached(from)
      modifies this`position, this`line, this`col
      ensures Reached(from) && position == SkipWhile(source, old(position), p)
    {
      ghost var start := position;
      while position < |source| && p(source[position])
        invariant start <= position && Reached(from)
        invariant SkipWhile(source, position, p) == SkipWhile(source, start, p)
        decreases |source| - position
      {
        var _ := Bump(from);
      }
    }

    method ConsumeDecimalDigits(ghost from: Pos)
      requires Reached(from)
      modifies this`position, this`line, this`col
      ensures Reached(from) && position == SkipWhile(source, old(position), IsNumeralChar)
    {
      BumpWhile(from, IsNumeralChar);
    }

    method ResyncWordish(ghost from: Pos)
      requires Reached(from)
      modifies this`position, this`line, this`col
      ensures Reached(from) && position == SkipWhile(source, old(position), IsWordish)
    {
      BumpWhile(from, IsWordish);
    }

    /** Reads an exponent if one is there; a letter with no digits behind it is given back. */
    method ConsumeExponent(ghost from: Pos) returns (present: bool)
      requires Reached(from)
      modifies this`position, this`line, this`col
      ensures var e := ScanExponent(source, old(position));
              present == e.present && Here() == BumpTo(source, from, e.reach).(offset := e.end)
    {
      present := false;
      if PeekChar() == Some('e') || PeekChar() == Some('E') {
        var exponentStart := position;
        var _ := Bump(from);
        if PeekChar() == Some('+') || PeekChar() == Some('-') {
          var _ := Bump(from);
        }
        var digitsStart := position;
        assert digitsStart == ExponentDigits(source, exponentStart);
        ConsumeDecimalDigits(from);
        if position == digitsStart {
          position := exponentStart;
        } else {
          present := true;
        }
      }
    }

    /** Reads a point and digits if both are there; `..` and a bare point are left alone. */
    method ConsumeFraction(ghost from: Pos) returns (present: bool)
      requires Reached(from)
      modifies this`position, this`line, this`col
      ensures Reached(from)
      ensures present == HasFraction(source, old(position)) && position == MantissaEnd(source, old(position))
    {
      present := PeekChar() == Some('.') && PeekNextChar() != Some('.')
                 && PeekNextChar().Some? && IsDigit(PeekNextChar().value);
      if present {
        var _ := Bump(from);
        ConsumeDecimalDigits(from);
      }
    }

    method PushTokenAt(kind: TokenKind, effectiveKind: TokenKind, start: nat, end: nat, line: nat, col: nat)
      modifies this`tokens, this`lastSignificant
      ensures tokens == old(tokens) + [Token(kind, effectiveKind, start, end, line, col)]
      ensures lastSignificant == Remember(old(lastSignificant), effectiveKind)
    {
      if !(effectiveKind.Comment? || effectiveKind.Eof?) {
        lastSignificant := Some(effectiveKind);
      }
      tokens := tokens + [Token(kind, effectiveKind, start, end, line, col)];
    }

    method PushToken(kind: TokenKind, start: nat, line: nat, col: nat)
      modifies this`tokens, this`lastSignificant
      ensures tokens == old(tokens) + [Token(kind, kind, start, position, line, col)]
      ensures lastSignificant == Remember(old(lastSignificant), kind)
    {
      PushTokenAt(kind, kind, start, position, line, col);
    }

    method ScanComment()
      requires Valid() && position + 1 < |source|
      requires source[position] == '-' && source[position + 1] == '-'
      modifies this
      ensures Valid()
      ensures Emitted(old(Here()), old(tokens), old(lastSignificant), AdaScan.ScanComment(source, old(position)))
    {
      ghost var p := Here();
      var start, startLine, startCol := position, line, col;
      var _ := Bump(p);
      var _ := Bump(p);
      var contentStart := position;
      BumpWhile(p, NotNewline);
      PushToken(Comment(source[contentStart..position]), start, startLine, startCol);
    }

    method ScanIdentifierOrKeyword()
      requires Valid() && position < |source| && IsLetter(source[position])
      modifies this
      ensures Valid()
      ensures Emitted(old(Here()), old(tokens), old(lastSignificant), ScanWord(source, old(position), reserved))
    {
      ghost var p := Here();
      var start, startLine, startCol := position, line, col;
      var _ := Bump(p);
      BumpWhile(p, IsIdentifierContinue);
      var canonical := Lower(source[start..position]);
      PushToken(KeywordOrIdentifier(canonical, reserved), start, startLine, startCol);
    }

    method ScanNumber()
      requires Valid() && position < |source| && IsDigit(source[position])
      modifies this
      ensures Valid()
      ensures Emitted(old(Here()), old(tokens), old(lastSignificant), AdaScan.ScanNumber(source, old(position)))
    {
      ghost var p := Here();
      var start, startLine, startCol := position, line, col;
      ConsumeDecimalDigits(p);
      if PeekChar() == Some('#') {
        ScanBasedLiteral(p, start, startLine, startCol);
        return;
      }
      ScanDecimalLiteral(p, start, startLine, startCol);
    }

    /** The rest of `scan_number` once no `#` follows the digits. */
    method ScanDecimalLiteral(ghost p: Pos, start: nat, startLine: nat, startCol: nat)
      requires p == Pos(start, startLine, startCol) && start < position && Reached(p)
      modifies this
      ensures Valid()
      ensures Emitted(p, old(tokens), old(lastSignificant), ScanDecimal(source, start, old(position)))
    {
      var isReal := ConsumeFraction(p);
      var present := ConsumeExponent(p);
      isReal := isReal || present;
      var text := source[start..position];
      PushToken(if isReal then RealLiteral(text) else IntLiteral(text), start, startLine, startCol);
    }

    /** From the first `#` to where the digits stop; whether a second `#` closes a valid literal there. */
    method ConsumeBasedDigits(ghost from: Pos, start: nat) returns (wellFormed: bool)
      requires Reached(from) && start < position < |source| && source[position] == '#'
      modifies this`position, this`line, this`col
      ensures Reached(from) && position == BasedClose(source, old(position))
      ensures wellFormed == WellFormedBased(source, start, old(position))
    {
      var validBase := ValidBase(source[start..position]);
      var _ := Bump(from);
      var digitsStart := position;
      BumpWhile(from, IsBasedDigit);
      var sawDigit := position > digitsStart;
      wellFormed := validBase && sawDigit && PeekChar() == Some('#');
    }

    /** Entered at the first `#`; `p` is where the token began. */
    method ScanBasedLiteral(ghost p: Pos, start: nat, startLine: nat, startCol: nat)
      requires p == Pos(start, startLine, startCol) && start < position < |source| && Reached(p)
      requires source[position] == '#'
      modifies this
      ensures Valid()
      ensures Emitted(p, old(tokens), old(lastSignificant), ScanBased(source, start, old(position)))
    {
      ghost var hash := position;
      var wellFormed := ConsumeBasedDigits(p, start);
      ghost var close := position;
      assert ScanBased(source, start, hash) == BasedFrom(source, start, close, wellFormed);
      if !wellFormed {
        ResyncWordish(p);
        PushToken(Error("malformed based literal"), start, startLine, startCol);
      } else {
        var _ := Bump(p);
        var _ := ConsumeExponent(p);
        PushToken(BasedLiteral(source[start..position]), start, startLine, startCol);
      }
    }

    method ScanString()
      requires Valid() && position < |source| && source[position] == '"'
      modifies this
      ensures Valid()
      ensures Emitted(old(Here()), old(tokens), old(lastSignificant), AdaScan.ScanString(source, old(position)))
    {
      ghost var p := Here();
      var start, startLine, startCol := position, line, col;
      var content := "";
      var _ := Bump(p);
      while position < |source|
        invariant start < position && Reached(p)
        invariant tokens == old(tokens) && lastSignificant == old(lastSignificant)
        invariant StringBody(source, position, content) == StringBody(source, start + 1, "")
        decreases |source| - position
      {
        var ch := source[position];
        if ch == '"' {
          var _ := Bump(p);
          if PeekChar() == Some('"') {
            content := content + ['"'];
            var _ := Bump(p);
          } else {
            PushToken(StringLiteral(content), start, startLine, startCol);
            return;
          }
        } else if ch == '\n' {
          PushToken(Error("unterminated string literal"), start, startLine, startCol);
          return;
        } else {
          content := content + [ch];
          var _ := Bump(p);
        }
      }
      PushToken(Error("unterminated string literal"), start, startLine, startCol);
    }

    method ScanApostrophe()
      requires Valid() && position < |source| && source[position] == '\''
      modifies this
      ensures Valid()
      ensures Emitted(old(Here()), old(tokens), old(lastSignificant),
                      AdaScan.ScanApostrophe(source, old(position), IsAttributePrefix(old(lastSignificant))))
    {
      ghost var p := Here();
      var start, startLine, startCol := position, line, col;
      if IsAttributePrefix(lastSignificant) || !CharacterCandidate(source, position) {
        var _ := Bump(p);
        PushToken(Tick, start, startLine, startCol);
        return;
      }
      var literal, endPosition := source[position + 1], position + 3;
      while position < endPosition
        invariant start <= position <= endPosition && Reached(p)
        invariant tokens == old(tokens) && lastSignificant == old(lastSignificant)
      {
        var _ := Bump(p);
      }
      PushToken(CharLiteral(literal), start, startLine, startCol);
    }

    /** Bumps once more and answers `then` when the next character is `c`. */
    method Followed(ghost from: Pos, c: char) returns (yes: bool)
      requires Reached(from)
      modifies this`position, this`line, this`col
      ensures Reached(from) && yes == (old(PeekChar()) == Some(c))
      ensures position == if yes then old(position) + 1 else old(position)
    {
      yes := PeekChar() == Some(c);
      if yes {
        var _ := Bump(from);
      }
    }

    method ScanPunctuationOrError()
      requires Valid() && position < |source|
      modifies this
      ensures Valid()
      ensures Emitted(old(Here()), old(tokens), old(lastSignificant), ScanPunctuation(source, old(position)))
    {
      ghost var p := Here();
      var start, startLine, startCol := position, line, col;
      var ch := source[position];
      var _ := Bump(p);
      var kind;
      var paired := false;
      match ch {
        case '(' => kind := LParen;
        case ')' => kind := RParen;
        case ';' => kind := Semicolon;
        case ',' => kind := Comma;
        case ':' => paired := Followed(p, '='); kind := if paired then Assign else Colon;
        case '=' => paired := Followed(p, '>'); kind := if paired then Arrow else Eq;
        case '.' => paired := Followed(p, '.'); kind := if paired then DotDot else Dot;
        case '<' =>
          paired := Followed(p, '>');
          if paired {
            kind := Box;
          } else {
            paired := Followed(p, '=');
            kind := if paired then Le else Lt;
          }
        case '>' => paired := Followed(p, '='); kind := if paired then Ge else Gt;
        case '/' => paired := Followed(p, '='); kind := if paired then Neq else Slash;
        case '*' => paired := Followed(p, '*'); kind := if paired then DoubleStar else Star;
        case '+' => kind := Plus;
        case '-' => kind := Minus;
        case '&' => kind := Ampersand;
        case _ => kind := Error("unexpected character '" + [ch] + "'");
      }
      PushToken(kind, start, startLine, startCol);
    }

    /** One turn of the main loop at a character that is not whitespace. */
    method ScanToken()
      requires Valid() && position < |source| && !IsWhitespace(source[position])
      modifies this
      ensures Valid()
      ensures Emitted(old(Here()), old(tokens), old(lastSignificant),
                      Scan(source, old(position), reserved, IsAttributePrefix(old(lastSignificant))))
    {
      var ch := source[position];
      if ch == '-' && PeekNextChar() == Some('-') {
        ScanComment();
      } else if ch == '"' {
        ScanString();
      } else if ch == '\'' {
        ScanApostrophe();
      } else if IsDigit(ch) {
        ScanNumber();
      } else if IsLetter(ch) {
        ScanIdentifierOrKeyword();
      } else {
        ScanPunctuationOrError();
      }
    }

    /** The main loop: what was pushed, followed by what is still to come, never changes. */
    method Lex()
      requires Valid() && Here() == START && tokens == [] && lastSignificant == None
      modifies this
      ensures tokens == Tokens(source, reserved)
    {
      while position < |source|
        invariant Valid()
        invariant tokens + LexFrom(source, reserved, Here(), lastSignificant) == Tokens(source, reserved)
        decreases |source| - position
      {
        ghost var p := Here();
        if IsWhitespace(source[position]) {
          SkippedSpace(source, reserved, p, lastSignificant);
          var _ := Bump(p);
        } else {
          PushedToken(source, reserved, p, lastSignificant, tokens);
          ScanToken();
        }
      }
      PushTokenAt(Eof, Eof, position, position, line, col);
    }
  }

  method Lex(source: string, dialect: AdaStandard) returns (tokens: seq<Token>)
    ensures tokens == Tokens(source, ReservedWords(dialect))
  {
    var lexer := new Lexer(source, dialect);
    lexer.Lex();
    tokens := lexer.tokens;
  }
}
