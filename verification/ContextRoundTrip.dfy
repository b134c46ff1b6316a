/** Printing context clauses, lexing the text and reading the clauses gives the printed names back. */
module ContextRoundTrip {
  import opened Common
  import opened AdaTokens
  import opened AdaScan
  import opened AdaRoundTrip
  import opened AdaLayout
  import opened ContextClauses

  type Name = seq<string>

  /** What may stand before the library item: `with` clauses, and things the reader passes over. */
  datatype ContextItem =
    | With(limitedWord: Option<string>, withWord: string, names: seq<Name>)
    | Passed(lexeme: Lexeme)
    | Parenthesised(inside: seq<Lexeme>)

  function NameLexemes(name: Name): seq<Lexeme> {
    if name == [] then []
    else if |name| == 1 then [Word(name[0])]
    else [Word(name[0])] + ([Mark(Dot)] + NameLexemes(name[1..]))
  }

  function NameText(name: Name): string {
    if name == [] then ""
    else if |name| == 1 then name[0]
    else name[0] + "." + NameText(name[1..])
  }

  function NamesLexemes(names: seq<Name>): seq<Lexeme> {
    if names == [] then []
    else if |names| == 1 then NameLexemes(names[0]) + [Mark(Semicolon)]
    else NameLexemes(names[0]) + ([Mark(Comma)] + NamesLexemes(names[1..]))
  }

  function NameUnits(names: seq<Name>): seq<UnitRef> {
    if names == [] then [] else [UnitRef(NameText(names[0]))] + NameUnits(names[1..])
  }

  function ItemLexemes(c: ContextItem): seq<Lexeme> {
    match c
    case With(None, withWord, names) => [Word(withWord)] + NamesLexemes(names)
    case With(Some(limitedWord), withWord, names) => [Word(limitedWord)] + ([Word(withWord)] + NamesLexemes(names))
    case Passed(x) => [x]
    case Parenthesised(inside) => [Mark(LParen)] + inside + [Mark(RParen)]
  }

  function ContextLexemes(cs: seq<ContextItem>): seq<Lexeme> {
    if cs == [] then [] else ItemLexemes(cs[0]) + ContextLexemes(cs[1..])
  }

  function ContextUnits(cs: seq<ContextItem>): seq<UnitRef> {
    if cs == [] then [] else (if cs[0].With? then NameUnits(cs[0].names) else []) + ContextUnits(cs[1..])
  }

  predicate IsName(name: Name, reserved: WordTable) {
    |name| > 0 && forall k | 0 <= k < |name| :: !reserved(Lower(name[k]))
  }

  predicate AreNames(names: seq<Name>, reserved: WordTable) {
    names == [] || (IsName(names[0], reserved) && AreNames(names[1..], reserved))
  }

  predicate IsParenthesis(x: Lexeme) { x == Mark(LParen) || x == Mark(RParen) }

  /** Read from `depth` open parentheses on, the lexemes close exactly those and never more. */
  predicate Balanced(xs: seq<Lexeme>, depth: nat) {
    if xs == [] then depth == 0
    else if xs[0] == Mark(LParen) then Balanced(xs[1..], depth + 1)
    else if xs[0] == Mark(RParen) then depth > 0 && Balanced(xs[1..], depth - 1)
    else Balanced(xs[1..], depth)
  }

  ghost predicate IsContextItem(c: ContextItem, reserved: WordTable) {
    match c
    case With(limitedWord, withWord, names) =>
      && (limitedWord.Some? ==> Lower(limitedWord.value) == "limited") && Lower(withWord) == "with"
      && |names| > 0 && AreNames(names, reserved)
    case Passed(x) =>
      var kind := KindOf(x, reserved);
      !IsParenthesis(x) && !IsLibraryItemStart(kind) && kind != Keyword("with")
    case Parenthesised(inside) => Balanced(inside, 0)
  }

  /** A word `limited` that is no part of the clause behind it, as in `limited private with A;`. */
  predicate IsLooseLimited(c: ContextItem, reserved: WordTable) {
    c.Passed? && KindOf(c.lexeme, reserved) == Keyword("limited")
  }

  predicate IsPlainWith(c: ContextItem) { c.With? && c.limitedWord.None? }

  /** No loose `limited` stands in front of a plain `with` clause, which would make the two one clause. */
  ghost predicate AreContextItems(cs: seq<ContextItem>, reserved: WordTable) {
    cs == [] ||
    (&& IsContextItem(cs[0], reserved)
     && (IsLooseLimited(cs[0], reserved) && |cs| > 1 ==> !IsPlainWith(cs[1]))
     && AreContextItems(cs[1..], reserved))
  }

  // -------------------------------------------------------------- token level

  /** Token `index + k` is that of lexeme `k`. */
  ghost predicate Matches(s: string, ts: seq<Token>, index: nat, xs: seq<Lexeme>, k: nat, reserved: WordTable) {
    k < |xs| && index + k < |ts| && IsReadAs(s, ts[index + k], xs[k], reserved)
  }

  /** The tokens from `index` on are those of the lexemes. */
  ghost predicate Carries(s: string, ts: seq<Token>, index: nat, xs: seq<Lexeme>, reserved: WordTable) {
    forall k: nat {:trigger Matches(s, ts, index, xs, k, reserved)} | k < |xs| :: Matches(s, ts, index, xs, k, reserved)
  }

  lemma CarriesSplit(s: string, ts: seq<Token>, index: nat, xs: seq<Lexeme>, ys: seq<Lexeme>, reserved: WordTable)
    requires Carries(s, ts, index, xs + ys, reserved)
    ensures Carries(s, ts, index, xs, reserved) && Carries(s, ts, index + |xs|, ys, reserved)
  {
    forall k: nat | k < |xs|
      ensures Matches(s, ts, index, xs, k, reserved)
    {
      assert Matches(s, ts, index, xs + ys, k, reserved);
    }
    var at := index + |xs|;
    forall k: nat | k < |ys|
      ensures Matches(s, ts, at, ys, k, reserved)
    {
      assert Matches(s, ts, index, xs + ys, |xs| + k, reserved);
    }
  }

  /** The first of the lexemes is at `index`: its kind and, for an identifier, its text. */
  lemma CarriesOne(s: string, ts: seq<Token>, index: nat, x: Lexeme, rest: seq<Lexeme>, reserved: WordTable)
    requires Carries(s, ts, index, [x] + rest, reserved)
    ensures KindIs(ts, index, KindOf(x, reserved)) && Carries(s, ts, index + 1, rest, reserved)
    ensures KindOf(x, reserved).Identifier? ==> IdentifierSourceText(s, ts, index) == Some(Spelling(x))
  {
    CarriesSplit(s, ts, index, [x], rest, reserved);
    assert Matches(s, ts, index, [x], 0, reserved);
  }

  lemma NameEnds(s: string, ts: seq<Token>, index: nat, part: string)
    requires IdentifierSourceText(s, ts, index) == Some(part) && !KindIs(ts, index + 1, Dot)
    ensures DottedName(s, ts, index) == Some(Parsed(part, index + 1))
  {
  }

  lemma NameGoesOn(s: string, ts: seq<Token>, index: nat, part: string, rest: string, next: nat)
    requires IdentifierSourceText(s, ts, index) == Some(part) && KindIs(ts, index + 1, Dot)
    requires DottedName(s, ts, index + 2) == Some(Parsed(rest, next))
    ensures DottedName(s, ts, index) == Some(Parsed(part + "." + rest, next))
  {
  }

  lemma LastPartIsRead(s: string, ts: seq<Token>, index: nat, part: string, reserved: WordTable)
    requires !reserved(Lower(part)) && Carries(s, ts, index, [Word(part)], reserved) && !KindIs(ts, index + 1, Dot)
    ensures DottedName(s, ts, index) == Some(Parsed(part, index + 1))
  {
    assert [Word(part)] == [Word(part)] + [];
    CarriesOne(s, ts, index, Word(part), [], reserved);
    NameEnds(s, ts, index, part);
  }

  lemma PartIsRead(s: string, ts: seq<Token>, index: nat, part: string, below: seq<Lexeme>, reserved: WordTable)
    requires !reserved(Lower(part)) && Carries(s, ts, index, [Word(part)] + ([Mark(Dot)] + below), reserved)
    ensures IdentifierSourceText(s, ts, index) == Some(part) && KindIs(ts, index + 1, Dot)
    ensures Carries(s, ts, index + 2, below, reserved)
  {
    CarriesOne(s, ts, index, Word(part), [Mark(Dot)] + below, reserved);
    CarriesOne(s, ts, index + 1, Mark(Dot), below, reserved);
  }

  lemma NameLength(name: Name)
    requires |name| > 1
    ensures |NameLexemes(name)| == 2 + |NameLexemes(name[1..])|
  {
  }

  lemma {:induction false} NameIsRead(s: string, ts: seq<Token>, index: nat, name: Name, reserved: WordTable)
    requires IsName(name, reserved) && Carries(s, ts, index, NameLexemes(name), reserved)
    requires !KindIs(ts, index + |NameLexemes(name)|, Dot)
    ensures DottedName(s, ts, index) == Some(Parsed(NameText(name), index + |NameLexemes(name)|))
    decreases |name|
  {
    if |name| == 1 {
      LastPartIsRead(s, ts, index, name[0], reserved);
    } else {
      var below := NameLexemes(name[1..]);
      NameLength(name);
      PartIsRead(s, ts, index, name[0], below, reserved);
      NameIsRead(s, ts, index + 2, name[1..], reserved);
      NameGoesOn(s, ts, index, name[0], NameText(name[1..]), index + 2 + |below|);
    }
  }

  /** A name and the mark that follows it. */
  lemma NameThenMark(s: string, ts: seq<Token>, index: nat, name: Name, mark: TokenKind, rest: seq<Lexeme>, reserved: WordTable)
    requires IsName(name, reserved) && mark != Dot
    requires Carries(s, ts, index, NameLexemes(name) + ([Mark(mark)] + rest), reserved)
    ensures var next := index + |NameLexemes(name)|;
            && DottedName(s, ts, index) == Some(Parsed(NameText(name), next))
            && KindIs(ts, next, mark) && Carries(s, ts, next + 1, rest, reserved)
  {
    CarriesSplit(s, ts, index, NameLexemes(name), [Mark(mark)] + rest, reserved);
    CarriesOne(s, ts, index + |NameLexemes(name)|, Mark(mark), rest, reserved);
    NameIsRead(s, ts, index, name, reserved);
  }

  lemma ClauseEnds(s: string, ts: seq<Token>, index: nat, text: string, next: nat)
    requires DottedName(s, ts, index) == Some(Parsed(text, next)) && KindIs(ts, next, Semicolon)
    ensures Clause(s, ts, index) == Some(Parsed([UnitRef(text)], next + 1))
  {
  }

  lemma ClauseGoesOn(s: string, ts: seq<Token>, index: nat, text: string, next: nat, units: seq<UnitRef>, end: nat)
    requires DottedName(s, ts, index) == Some(Parsed(text, next)) && KindIs(ts, next, Comma)
    requires Clause(s, ts, next + 1) == Some(Parsed(units, end))
    ensures Clause(s, ts, index) == Some(Parsed([UnitRef(text)] + units, end))
  {
  }

  /** The names are read at `index` one behind the other, commas between them and a semicolon behind the last. */
  ghost predicate NamesStand(s: string, ts: seq<Token>, index: nat, names: seq<Name>)
    requires names != []
    decreases |names|
  {
    var next := index + |NameLexemes(names[0])|;
    && DottedName(s, ts, index) == Some(Parsed(NameText(names[0]), next))
    && if |names| == 1 then KindIs(ts, next, Semicolon)
       else KindIs(ts, next, Comma) && NamesStand(s, ts, next + 1, names[1..])
  }

  lemma NamesStandFirst(s: string, ts: seq<Token>, index: nat, name: Name, more: seq<Name>)
    requires var next := index + |NameLexemes(name)|;
             && DottedName(s, ts, index) == Some(Parsed(NameText(name), next)) && KindIs(ts, next, Comma)
             && more != [] && NamesStand(s, ts, next + 1, more)
    ensures NamesStand(s, ts, index, [name] + more)
  {
    assert ([name] + more)[1..] == more;
  }

  lemma NamesUnfold(name: Name, more: seq<Name>)
    requires more != []
    ensures NamesLexemes([name] + more) == NameLexemes(name) + ([Mark(Comma)] + NamesLexemes(more))
    ensures NameUnits([name] + more) == [UnitRef(NameText(name))] + NameUnits(more)
  {
    assert ([name] + more)[1..] == more;
  }

  lemma OneNameStands(s: string, ts: seq<Token>, index: nat, name: Name, reserved: WordTable)
    requires IsName(name, reserved) && Carries(s, ts, index, NameLexemes(name) + [Mark(Semicolon)], reserved)
    ensures NamesStand(s, ts, index, [name])
  {
    assert [Mark(Semicolon)] + [] == [Mark(Semicolon)];
    NameThenMark(s, ts, index, name, Semicolon, [], reserved);
  }

  lemma {:induction false} CarriedNamesStand(s: string, ts: seq<Token>, index: nat, names: seq<Name>, reserved: WordTable)
    requires |names| > 0 && AreNames(names, reserved) && Carries(s, ts, index, NamesLexemes(names), reserved)
    ensures NamesStand(s, ts, index, names)
    decreases |names|
  {
    var name, more := names[0], names[1..];
    if |names| == 1 {
      assert names == [name];
      OneNameStands(s, ts, index, name, reserved);
    } else {
      assert names == [name] + more;
      NamesUnfold(name, more);
      NameThenMark(s, ts, index, name, Comma, NamesLexemes(more), reserved);
      CarriedNamesStand(s, ts, index + |NameLexemes(name)| + 1, more, reserved);
      NamesStandFirst(s, ts, index, name, more);
    }
  }

  /** The units of the names and the place behind them, when they are read from `index` on. */
  function Expected(names: seq<Name>, index: nat): Parsed<seq<UnitRef>>
    requires names != []
    decreases |names|
  {
    var unit, next := UnitRef(NameText(names[0])), index + |NameLexemes(names[0])| + 1;
    if |names| == 1 then Parsed([unit], next)
    else
      var rest := Expected(names[1..], next);
      Parsed([unit] + rest.value, rest.next)
  }

  lemma {:induction false} ExpectedIs(names: seq<Name>, index: nat)
    requires names != []
    ensures Expected(names, index) == Parsed(NameUnits(names), index + |NamesLexemes(names)|)
    decreases |names|
  {
    if |names| == 1 {
      assert NameUnits(names) == [UnitRef(NameText(names[0]))];
    } else {
      ExpectedIs(names[1..], index + |NameLexemes(names[0])| + 1);
    }
  }

  lemma {:induction false} StandingNamesAreRead(s: string, ts: seq<Token>, index: nat, names: seq<Name>)
    requires names != [] && NamesStand(s, ts, index, names)
    ensures Clause(s, ts, index) == Some(Expected(names, index))
    decreases |names|
  {
    var text, next := NameText(names[0]), index + |NameLexemes(names[0])|;
    if |names| == 1 {
      ClauseEnds(s, ts, index, text, next);
    } else {
      var rest := Expected(names[1..], next + 1);
      StandingNamesAreRead(s, ts, next + 1, names[1..]);
      ClauseGoesOn(s, ts, index, text, next, rest.value, rest.next);
    }
  }

  lemma NamesAreRead(s: string, ts: seq<Token>, index: nat, names: seq<Name>, end: nat, reserved: WordTable)
    requires |names| > 0 && AreNames(names, reserved) && end == index + |NamesLexemes(names)|
    requires Carries(s, ts, index, NamesLexemes(names), reserved)
    ensures Clause(s, ts, index) == Some(Parsed(NameUnits(names), end))
  {
    assert NamesStand(s, ts, index, names) by { CarriedNamesStand(s, ts, index, names, reserved); }
    StandingNamesAreRead(s, ts, index, names);
    ExpectedIs(names, index);
  }

  /** Below depth 0 a token is passed over, and only parentheses change the depth. */
  lemma PassedInside(s: string, ts: seq<Token>, index: nat, x: Lexeme, depth: nat, reserved: WordTable)
    requires KindIs(ts, index, KindOf(x, reserved))
    ensures WithClauses(s, ts, index, depth + 1)
         == WithClauses(s, ts, index + 1,
                        if x == Mark(LParen) then depth + 2 else if x == Mark(RParen) then depth else depth + 1)
  {
    KindOfParenthesis(x, reserved);
  }

  lemma {:induction false} InsideIsPassed(s: string, ts: seq<Token>, index: nat, inside: seq<Lexeme>, depth: nat,
                                          reserved: WordTable)
    requires Balanced(inside, depth) && Carries(s, ts, index, inside, reserved)
    ensures WithClauses(s, ts, index, depth + 1) == WithClauses(s, ts, index + |inside|, 1)
    decreases |inside|
  {
    if inside != [] {
      var x, rest := inside[0], inside[1..];
      assert inside == [x] + rest;
      CarriesOne(s, ts, index, x, rest, reserved);
      PassedInside(s, ts, index, x, depth, reserved);
      var below := if x == Mark(LParen) then depth + 1 else if x == Mark(RParen) then depth - 1 else depth;
      InsideIsPassed(s, ts, index + 1, rest, below, reserved);
    }
  }

  lemma KindOfParenthesis(x: Lexeme, reserved: WordTable)
    ensures KindOf(x, reserved) == LParen ==> x == Mark(LParen)
    ensures KindOf(x, reserved) == RParen ==> x == Mark(RParen)
  {
  }

  lemma ClauseIsTaken(s: string, ts: seq<Token>, index: nat, units: seq<UnitRef>, next: nat)
    requires ClauseAt(s, ts, index) == Some(Parsed(units, next))
    ensures WithClauses(s, ts, index, 0) == units + WithClauses(s, ts, next, 0)
  {
  }

  /** A printed reserved word is read as that keyword. */
  lemma KeywordStands(s: string, ts: seq<Token>, index: nat, text: string, word: string, rest: seq<Lexeme>, reserved: WordTable)
    requires reserved(word) && Lower(text) == word && Carries(s, ts, index, [Word(text)] + rest, reserved)
    ensures KindIs(ts, index, Keyword(word)) && Carries(s, ts, index + 1, rest, reserved)
  {
    CarriesOne(s, ts, index, Word(text), rest, reserved);
  }

  lemma WithWordIsRead(s: string, ts: seq<Token>, index: nat, withWord: string, names: seq<Name>, end: nat, reserved: WordTable)
    requires reserved("with") && Lower(withWord) == "with" && |names| > 0 && AreNames(names, reserved)
    requires Carries(s, ts, index, [Word(withWord)] + NamesLexemes(names), reserved)
    requires end == index + 1 + |NamesLexemes(names)|
    ensures KindIs(ts, index, Keyword("with")) && Clause(s, ts, index + 1) == Some(Parsed(NameUnits(names), end))
  {
    KeywordStands(s, ts, index, withWord, "with", NamesLexemes(names), reserved);
    NamesAreRead(s, ts, index + 1, names, end, reserved);
  }

  lemma ClauseStartIs(ts: seq<Token>, index: nat, limited: bool)
    requires if limited then KindIs(ts, index, Keyword("limited")) && KindIs(ts, index + 1, Keyword("with"))
             else KindIs(ts, index, Keyword("with"))
    ensures ClauseStart(ts, index) == Some(if limited then index + 2 else index + 1)
  {
    assert "limited" != "with" by { assert |"limited"| != |"with"|; }
  }

  lemma PlainWithIsRead(s: string, ts: seq<Token>, index: nat, withWord: string, names: seq<Name>, end: nat,
                        reserved: WordTable)
    requires reserved("with") && Lower(withWord) == "with" && |names| > 0 && AreNames(names, reserved)
    requires Carries(s, ts, index, [Word(withWord)] + NamesLexemes(names), reserved)
    requires end == index + 1 + |NamesLexemes(names)|
    ensures ClauseAt(s, ts, index) == Some(Parsed(NameUnits(names), end))
  {
    WithWordIsRead(s, ts, index, withWord, names, end, reserved);
    ClauseStartIs(ts, index, false);
  }

  lemma LimitedWithIsRead(s: string, ts: seq<Token>, index: nat, limitedWord: string, withWord: string, names: seq<Name>,
                          end: nat, reserved: WordTable)
    requires reserved("with") && reserved("limited") && Lower(limitedWord) == "limited" && Lower(withWord) == "with"
    requires |names| > 0 && AreNames(names, reserved)
    requires Carries(s, ts, index, [Word(limitedWord)] + ([Word(withWord)] + NamesLexemes(names)), reserved)
    requires end == index + 2 + |NamesLexemes(names)|
    ensures ClauseAt(s, ts, index) == Some(Parsed(NameUnits(names), end))
  {
    KeywordStands(s, ts, index, limitedWord, "limited", [Word(withWord)] + NamesLexemes(names), reserved);
    WithWordIsRead(s, ts, index + 1, withWord, names, end, reserved);
    ClauseStartIs(ts, index, true);
  }

  lemma WithIsRead(s: string, ts: seq<Token>, index: nat, limitedWord: Option<string>, withWord: string, names: seq<Name>,
                   end: nat, reserved: WordTable)
    requires reserved("with") && reserved("limited")
    requires IsContextItem(With(limitedWord, withWord, names), reserved)
    requires Carries(s, ts, index, ItemLexemes(With(limitedWord, withWord, names)), reserved)
    requires end == index + |ItemLexemes(With(limitedWord, withWord, names))|
    ensures ClauseAt(s, ts, index) == Some(Parsed(NameUnits(names), end))
  {
    if limitedWord.Some? {
      LimitedWithIsRead(s, ts, index, limitedWord.value, withWord, names, end, reserved);
    } else {
      PlainWithIsRead(s, ts, index, withWord, names, end, reserved);
    }
  }

  lemma ParenthesesArePassed(s: string, ts: seq<Token>, index: nat, inside: seq<Lexeme>, reserved: WordTable)
    requires Balanced(inside, 0) && Carries(s, ts, index, [Mark(LParen)] + inside + [Mark(RParen)], reserved)
    ensures WithClauses(s, ts, index, 0) == WithClauses(s, ts, index + |inside| + 2, 0)
  {
    var close := [Mark(RParen)];
    assert [Mark(LParen)] + inside + close == [Mark(LParen)] + (inside + close);
    CarriesOne(s, ts, index, Mark(LParen), inside + close, reserved);
    CarriesSplit(s, ts, index + 1, inside, close, reserved);
    CarriesOne(s, ts, index + 1 + |inside|, Mark(RParen), [], reserved) by { assert close == close + []; }
    InsideIsPassed(s, ts, index + 1, inside, 0, reserved);
  }

  lemma LexemeIsPassed(s: string, ts: seq<Token>, index: nat, kind: TokenKind)
    requires KindIs(ts, index, kind) && kind != LParen && kind != RParen && !IsLibraryItemStart(kind)
    requires kind != Keyword("with") && (kind == Keyword("limited") ==> !KindIs(ts, index + 1, Keyword("with")))
    ensures WithClauses(s, ts, index, 0) == WithClauses(s, ts, index + 1, 0)
  {
  }

  lemma PassedIsRead(s: string, ts: seq<Token>, index: nat, x: Lexeme, reserved: WordTable)
    requires IsContextItem(Passed(x), reserved) && Carries(s, ts, index, [x], reserved)
    requires IsLooseLimited(Passed(x), reserved) ==> !KindIs(ts, index + 1, Keyword("with"))
    ensures WithClauses(s, ts, index, 0) == WithClauses(s, ts, index + 1, 0)
  {
    assert [x] == [x] + [];
    CarriesOne(s, ts, index, x, [], reserved);
    KindOfParenthesis(x, reserved);
    LexemeIsPassed(s, ts, index, KindOf(x, reserved));
  }

  lemma WithItemIsRead(s: string, ts: seq<Token>, index: nat, c: ContextItem, end: nat, reserved: WordTable)
    requires reserved("with") && reserved("limited") && c.With? && IsContextItem(c, reserved)
    requires Carries(s, ts, index, ItemLexemes(c), reserved) && end == index + |ItemLexemes(c)|
    ensures WithClauses(s, ts, index, 0) == NameUnits(c.names) + WithClauses(s, ts, end, 0)
  {
    WithIsRead(s, ts, index, c.limitedWord, c.withWord, c.names, end, reserved);
    ClauseIsTaken(s, ts, index, NameUnits(c.names), end);
  }

  /** What one context item adds to the units read. */
  lemma ContextItemIsRead(s: string, ts: seq<Token>, index: nat, c: ContextItem, reserved: WordTable)
    requires reserved("with") && reserved("limited") && IsContextItem(c, reserved)
    requires Carries(s, ts, index, ItemLexemes(c), reserved)
    requires IsLooseLimited(c, reserved) ==> !KindIs(ts, index + 1, Keyword("with"))
    ensures WithClauses(s, ts, index, 0)
         == (if c.With? then NameUnits(c.names) else []) + WithClauses(s, ts, index + |ItemLexemes(c)|, 0)
  {
    match c {
      case With(_, _, _) => WithItemIsRead(s, ts, index, c, index + |ItemLexemes(c)|, reserved);
      case Passed(x) => PassedIsRead(s, ts, index, x, reserved);
      case Parenthesised(inside) => ParenthesesArePassed(s, ts, index, inside, reserved);
    }
  }

  /** The first lexeme of what is left of the context, or of the library item. */
  function FirstLexeme(cs: seq<ContextItem>, opening: string): Lexeme {
    if cs == [] then Word(opening) else ItemLexemes(cs[0])[0]
  }

  lemma FirstLexemeStands(cs: seq<ContextItem>, opening: string)
    ensures var rest := ContextLexemes(cs) + [Word(opening)]; rest[0] == FirstLexeme(cs, opening)
  {
  }

  /** Only a plain `with` clause begins with the word. */
  lemma FirstIsNotWith(cs: seq<ContextItem>, opening: string, reserved: WordTable)
    requires AreContextItems(cs, reserved)
    requires IsLibraryItemStart(KindOf(Word(opening), reserved))
    requires cs != [] ==> !IsPlainWith(cs[0])
    ensures KindOf(FirstLexeme(cs, opening), reserved) != Keyword("with")
  {
    assert "limited" != "with" by { assert |"limited"| != |"with"|; }
  }

  lemma FirstLexemeRead(s: string, ts: seq<Token>, index: nat, xs: seq<Lexeme>, first: Lexeme, reserved: WordTable)
    requires Carries(s, ts, index, xs, reserved) && xs != [] && xs[0] == first
    ensures KindIs(ts, index, KindOf(first, reserved))
  {
    assert xs == [first] + xs[1..];
    CarriesOne(s, ts, index, first, xs[1..], reserved);
  }

  /** Behind a loose `limited` no `with` follows. */
  lemma NoWithBehind(s: string, ts: seq<Token>, index: nat, cs: seq<ContextItem>, opening: string, reserved: WordTable)
    requires AreContextItems(cs, reserved)
    requires IsLibraryItemStart(KindOf(Word(opening), reserved))
    requires cs != [] ==> !IsPlainWith(cs[0])
    requires Carries(s, ts, index, ContextLexemes(cs) + [Word(opening)], reserved)
    ensures !KindIs(ts, index, Keyword("with"))
  {
    var first := FirstLexeme(cs, opening);
    assert KindIs(ts, index, KindOf(first, reserved)) by {
      FirstLexemeStands(cs, opening);
      FirstLexemeRead(s, ts, index, ContextLexemes(cs) + [Word(opening)], first, reserved);
    }
    FirstIsNotWith(cs, opening, reserved);
  }

  lemma ContextEnds(s: string, ts: seq<Token>, index: nat, opening: string, reserved: WordTable)
    requires IsLibraryItemStart(KindOf(Word(opening), reserved)) && Carries(s, ts, index, [Word(opening)], reserved)
    ensures WithClauses(s, ts, index, 0) == []
  {
    FirstLexemeRead(s, ts, index, [Word(opening)], Word(opening), reserved);
  }

  lemma ContextSplit(c: ContextItem, cs: seq<ContextItem>, opening: string)
    ensures ContextLexemes([c] + cs) + [Word(opening)] == ItemLexemes(c) + (ContextLexemes(cs) + [Word(opening)])
    ensures ContextUnits([c] + cs) == (if c.With? then NameUnits(c.names) else []) + ContextUnits(cs)
  {
    assert ([c] + cs)[1..] == cs;
  }

  /** The first item of a context, whatever clause it is. */
  lemma ContextStep(s: string, ts: seq<Token>, index: nat, c: ContextItem, cs: seq<ContextItem>, opening: string,
                    reserved: WordTable)
    requires reserved("with") && reserved("limited") && IsContextItem(c, reserved)
    requires AreContextItems(cs, reserved)
    requires IsLooseLimited(c, reserved) && cs != [] ==> !IsPlainWith(cs[0])
    requires IsLibraryItemStart(KindOf(Word(opening), reserved))
    requires Carries(s, ts, index, ItemLexemes(c) + (ContextLexemes(cs) + [Word(opening)]), reserved)
    ensures Carries(s, ts, index + |ItemLexemes(c)|, ContextLexemes(cs) + [Word(opening)], reserved)
    ensures WithClauses(s, ts, index, 0)
         == (if c.With? then NameUnits(c.names) else []) + WithClauses(s, ts, index + |ItemLexemes(c)|, 0)
  {
    CarriesSplit(s, ts, index, ItemLexemes(c), ContextLexemes(cs) + [Word(opening)], reserved);
    if IsLooseLimited(c, reserved) {
      NoWithBehind(s, ts, index + 1, cs, opening, reserved);
    }
    ContextItemIsRead(s, ts, index, c, reserved);
  }

  lemma {:induction false} ContextIsRead(s: string, ts: seq<Token>, index: nat, cs: seq<ContextItem>, opening: string,
                                         reserved: WordTable)
    requires reserved("with") && reserved("limited")
    requires AreContextItems(cs, reserved)
    requires IsLibraryItemStart(KindOf(Word(opening), reserved))
    requires Carries(s, ts, index, ContextLexemes(cs) + [Word(opening)], reserved)
    ensures WithClauses(s, ts, index, 0) == ContextUnits(cs)
    decreases |cs|
  {
    if cs == [] {
      assert ContextLexemes(cs) + [Word(opening)] == [Word(opening)];
      ContextEnds(s, ts, index, opening, reserved);
    } else {
      var c, more := cs[0], cs[1..];
      assert cs == [c] + more && (more != [] ==> more[0] == cs[1]);
      ContextSplit(c, more, opening);
      ContextStep(s, ts, index, c, more, opening, reserved);
      ContextIsRead(s, ts, index + |ItemLexemes(c)|, more, opening, reserved);
    }
  }

  // ------------------------------------------------------------- source level

  function SignificantLexemes(items: seq<Item>): seq<Lexeme> {
    if items == [] then []
    else (if items[0].lexeme.Remark? then [] else [items[0].lexeme]) + SignificantLexemes(items[1..])
  }

  lemma {:induction false} CommentsAreDropped(s: string, ts: seq<Token>, items: seq<Item>, rest: seq<Token>,
                                              tail: string, last: Option<TokenKind>, reserved: WordTable)
    requires Reads(s, ts, items, rest, reserved) && Printable(items, tail, last, reserved)
    ensures Carries(s, SignificantTokens(ts), 0, SignificantLexemes(items), reserved)
    decreases |items|
  {
    if items != [] {
      var x := items[0].lexeme;
      CommentsAreDropped(s, ts[1..], items[1..], rest, tail, Remember(last, KindOf(x, reserved)), reserved);
      assert ts[0].effectiveKind.Comment? <==> x.Remark?;
      var below, xs := SignificantTokens(ts[1..]), SignificantLexemes(items[1..]);
      if x.Remark? {
        assert [] + below == below && [] + xs == xs;
      } else {
        CarriesMore(s, ts[0], below, x, xs, reserved);
      }
    }
  }

  lemma CarriesMore(s: string, t: Token, ts: seq<Token>, x: Lexeme, xs: seq<Lexeme>, reserved: WordTable)
    requires IsReadAs(s, t, x, reserved) && Carries(s, ts, 0, xs, reserved)
    ensures Carries(s, [t] + ts, 0, [x] + xs, reserved)
  {
    forall k: nat | k < |xs| + 1
      ensures Matches(s, [t] + ts, 0, [x] + xs, k, reserved)
    {
      if k > 0 {
        assert Matches(s, ts, 0, xs, k - 1, reserved);
        assert ([t] + ts)[k] == ts[k - 1] && ([x] + xs)[k] == xs[k - 1];
      } else {
        assert ([t] + ts)[0] == t && ([x] + xs)[0] == x;
      }
    }
  }

  /**
   Print context items in any layout, with comments anywhere, then a library item keyword and any text at
   all. Lexing the whole, dropping comments and reading the clauses gives the names of the `with` clauses,
   in order and as they were spelled.
   */
  lemma ContextRoundTrips(cs: seq<ContextItem>, opening: string, items: seq<Item>, tail: string, reserved: WordTable)
    requires reserved("with") && reserved("limited")
    requires AreContextItems(cs, reserved)
    requires IsLibraryItemStart(KindOf(Word(opening), reserved))
    requires SignificantLexemes(items) == ContextLexemes(cs) + [Word(opening)]
    requires Printable(items, tail, None, reserved)
    ensures var s := Render(items, tail);
            WithClauses(s, SignificantTokens(Tokens(s, reserved)), 0, 0) == ContextUnits(cs)
  {
    var s := Render(items, tail);
    assert s[0..] == s;
    var q := ItemsAreRead(s, reserved, START, None, items, tail);
    var rest := LexFrom(s, reserved, q, LastAfter(None, items, reserved));
    CommentsAreDropped(s, Tokens(s, reserved), items, rest, tail, None, reserved);
    ContextIsRead(s, SignificantTokens(Tokens(s, reserved)), 0, cs, opening, reserved);
  }

  lemma OpensLibraryItem(opening: string, d: AdaStandard)
    requires Lower(opening) in ["generic", "package", "procedure", "function", "separate", "protected", "task"]
    ensures IsLibraryItemStart(KindOf(Word(opening), ReservedWords(d)))
  {
  }

  /** The same under the words of any dialect, with the seven words that open a library item. */
  lemma ContextRoundTripsInDialect(cs: seq<ContextItem>, opening: string, items: seq<Item>, tail: string, d: AdaStandard)
    requires AreContextItems(cs, ReservedWords(d))
    requires Lower(opening) in ["generic", "package", "procedure", "function", "separate", "protected", "task"]
    requires SignificantLexemes(items) == ContextLexemes(cs) + [Word(opening)]
    requires Printable(items, tail, None, ReservedWords(d))
    ensures var s := Render(items, tail);
            WithClauses(s, SignificantTokens(Tokens(s, ReservedWords(d))), 0, 0) == ContextUnits(cs)
  {
    assert ReservedWords(d)("with") && ReservedWords(d)("limited");
    OpensLibraryItem(opening, d);
    ContextRoundTrips(cs, opening, items, tail, ReservedWords(d));
  }
}
