/** Context clauses once more, with the words and marks that matter written out. */
module ContextManual {
  import opened Common
  import opened AdaTokens
  import opened AdaScan
  import opened AdaRoundTrip
  import opened AdaLayout
  import opened AdaManual
  import opened ContextClauses
  import opened ContextRoundTrip

  /** The words that open a library item. */
  predicate Opens(text: string) {
    var w := Small(text);
    || w == "generic" || w == "package" || w == "procedure" || w == "function" || w == "separate" || w == "protected"
    || w == "task"
  }

  ghost predicate IsPlainName(name: Name, d: AdaStandard) {
    |name| > 0 && forall k | 0 <= k < |name| :: !IsWord(Small(name[k]), d)
  }

  /** Anything may stand in a context but a lone parenthesis, a word `with` and a word that opens a library item. */
  ghost predicate IsPlainItem(c: ContextItem, d: AdaStandard) {
    match c
    case With(limitedWord, withWord, names) =>
      && (limitedWord.Some? ==> Small(limitedWord.value) == "limited") && Small(withWord) == "with"
      && |names| > 0 && forall k | 0 <= k < |names| :: IsPlainName(names[k], d)
    case Passed(x) =>
      && Plain(x) && x != Mark(LParen) && x != Mark(RParen)
      && (x.Word? ==> Small(x.text) != "with" && !Opens(x.text))
    case Parenthesised(inside) => Balanced(inside, 0)
  }

  /** A word `limited` in front of a plain `with` would make the two one clause. */
  ghost predicate IsPlainContext(cs: seq<ContextItem>, d: AdaStandard) {
    cs == [] ||
    (&& IsPlainItem(cs[0], d)
     && (cs[0].Passed? && cs[0].lexeme.Word? && Small(cs[0].lexeme.text) == "limited" && |cs| > 1 ==>
           !(cs[1].With? && cs[1].limitedWord.None?))
     && IsPlainContext(cs[1..], d))
  }

  lemma {:induction false} NamesArePlain(names: seq<Name>, d: AdaStandard)
    requires forall k | 0 <= k < |names| :: IsPlainName(names[k], d)
    ensures AreNames(names, ReservedWords(d))
    decreases |names|
  {
    if names != [] {
      NameIsPlain(names[0], d);
      NamesArePlain(names[1..], d);
    }
  }

  lemma NameIsPlain(name: Name, d: AdaStandard)
    requires IsPlainName(name, d)
    ensures IsName(name, ReservedWords(d))
  {
    forall k | 0 <= k < |name|
      ensures !ReservedWords(d)(Lower(name[k]))
    {
      SmallIsLower(name[k]);
      WordsAreReserved(Small(name[k]), d);
    }
  }

  lemma PassedIsPlain(x: Lexeme, d: AdaStandard)
    requires IsPlainItem(Passed(x), d)
    ensures IsContextItem(Passed(x), ReservedWords(d))
    ensures IsLooseLimited(Passed(x), ReservedWords(d)) ==> x.Word? && Small(x.text) == "limited"
  {
    KindIsManual(x, d);
  }

  lemma ItemIsPlain(c: ContextItem, d: AdaStandard)
    requires IsPlainItem(c, d)
    ensures IsContextItem(c, ReservedWords(d))
  {
    match c {
      case With(limitedWord, withWord, names) =>
        SmallIsLower(withWord);
        if limitedWord.Some? {
          SmallIsLower(limitedWord.value);
        }
        NamesArePlain(names, d);
      case Passed(x) => PassedIsPlain(x, d);
      case Parenthesised(_) =>
    }
  }

  lemma {:induction false} ContextIsPlain(cs: seq<ContextItem>, d: AdaStandard)
    requires IsPlainContext(cs, d)
    ensures AreContextItems(cs, ReservedWords(d))
    decreases |cs|
  {
    if cs != [] {
      ItemIsPlain(cs[0], d);
      if cs[0].Passed? {
        PassedIsPlain(cs[0].lexeme, d);
      }
      ContextIsPlain(cs[1..], d);
    }
  }

  function WithoutRemarks(xs: seq<Lexeme>): seq<Lexeme> {
    if xs == [] then [] else (if xs[0].Remark? then [] else [xs[0]]) + WithoutRemarks(xs[1..])
  }

  lemma {:induction false} SpacedSignificant(xs: seq<Lexeme>)
    ensures SignificantLexemes(Spaced(xs)) == WithoutRemarks(xs)
  {
    if xs != [] {
      SpacedSignificant(xs[1..]);
      assert Spaced(xs)[1..] == Spaced(xs[1..]);
    }
  }

  lemma OpeningIsPlain(opening: string, d: AdaStandard)
    requires Opens(opening)
    ensures IsLibraryItemStart(KindOf(Word(opening), ReservedWords(d)))
  {
    KindIsManual(Word(opening), d);
  }

  lemma WithIsReserved(d: AdaStandard)
    ensures ReservedWords(d)("with") && ReservedWords(d)("limited")
  {
  }

  lemma PlacedIsPrintable(xs: seq<Lexeme>, tail: string, d: AdaStandard)
    requires Placed(xs, None, d)
    ensures Printable(Spaced(xs), tail, None, ReservedWords(d))
  {
    PlacedIsOrdered(xs, None, None, d);
    SpacedIsPrintable(xs, tail, None, ReservedWords(d));
  }

  /**
   A context printed one space apart with comments anywhere, then a word that opens a library item and any text:
   exactly the names of the `with` clauses are read, whatever else, `use` and `pragma` clauses and `private`
   among it, stands between them.
   */
  lemma PlainContextRoundTrips(cs: seq<ContextItem>, opening: string, xs: seq<Lexeme>, tail: string, d: AdaStandard)
    requires IsPlainContext(cs, d) && Opens(opening)
    requires Placed(xs, None, d) && WithoutRemarks(xs) == ContextLexemes(cs) + [Word(opening)]
    ensures var s := Render(Spaced(xs), tail);
            WithClauses(s, SignificantTokens(Tokens(s, ReservedWords(d))), 0, 0) == ContextUnits(cs)
  {
    ContextIsPlain(cs, d);
    OpeningIsPlain(opening, d);
    SpacedSignificant(xs);
    PlacedIsPrintable(xs, tail, d);
    WithIsReserved(d);
    ContextRoundTrips(cs, opening, Spaced(xs), tail, ReservedWords(d));
  }

  /** Of any tokens exactly the comments are left out: errors stay, and so does the end marker. */
  lemma {:induction false} OnlyCommentsAreDropped(before: seq<Token>, t: Token, behind: seq<Token>)
    ensures SignificantTokens(before + [t] + behind)
         == SignificantTokens(before) + (if t.effectiveKind.Comment? then [] else [t]) + SignificantTokens(behind)
  {
    if before == [] {
      assert [] + [t] + behind == [t] + behind && ([t] + behind)[1..] == behind;
      assert [] + (if t.effectiveKind.Comment? then [] else [t]) == if t.effectiveKind.Comment? then [] else [t];
    } else {
      var first, more := before[0], before[1..] + [t] + behind;
      assert before + [t] + behind == [first] + more && ([first] + more)[1..] == more;
      OnlyCommentsAreDropped(before[1..], t, behind);
    }
  }

  // ------------------------------------------------------------------ what is passed over

  /** A `with` that no name follows is passed over, and so is one whose first name no mark of a clause follows. */
  lemma BrokenClauseIsPassed(source: string, tokens: seq<Token>, index: nat)
    requires KindIs(tokens, index, Keyword("with"))
    requires || index + 1 >= |tokens| || !tokens[index + 1].effectiveKind.Identifier?
             || index + 2 >= |tokens|
             || (var after := tokens[index + 2].effectiveKind; after != Dot && after != Comma && after != Semicolon)
    ensures WithClauses(source, tokens, index, 0) == WithClauses(source, tokens, index + 1, 0)
  {
    assert IdentifierSourceText(source, tokens, index + 1).Some? ==>
        DottedName(source, tokens, index + 1) == Some(Parsed(IdentifierSourceText(source, tokens, index + 1).value, index + 2));
  }

  /** A parenthesis closed once too often is passed over. */
  lemma ExtraParenthesisIsPassed(source: string, tokens: seq<Token>, index: nat)
    requires KindIs(tokens, index, RParen)
    ensures WithClauses(source, tokens, index, 0) == WithClauses(source, tokens, index + 1, 0)
  {
  }

  /** Identifiers and dots take turns, from the first identifier to the last. */
  ghost predicate IsDotted(tokens: seq<Token>, index: nat, end: nat)
    decreases |tokens| - index
  {
    && index < end <= |tokens| && tokens[index].effectiveKind.Identifier?
    && (index + 1 == end || (KindIs(tokens, index + 1, Dot) && IsDotted(tokens, index + 2, end)))
  }

  /** Dotted names and commas take turns up to a semicolon, which is the last token. */
  ghost predicate IsClause(tokens: seq<Token>, index: nat, end: nat)
    decreases |tokens| - index
  {
    exists next | index < next < end <= |tokens| :: IsDotted(tokens, index, next)
      && (if next + 1 == end then KindIs(tokens, next, Semicolon)
          else KindIs(tokens, next, Comma) && IsClause(tokens, next + 1, end))
  }

  lemma {:induction false} NamesAreDotted(source: string, tokens: seq<Token>, index: nat)
    requires DottedName(source, tokens, index).Some?
    ensures IsDotted(tokens, index, DottedName(source, tokens, index).value.next)
    decreases |tokens| - index
  {
    if KindIs(tokens, index + 1, Dot) {
      NamesAreDotted(source, tokens, index + 2);
    }
  }

  /** What is taken for a clause is one: names, commas between them, a semicolon behind the last. */
  lemma {:induction false} OnlyClausesAreTaken(source: string, tokens: seq<Token>, index: nat)
    requires Clause(source, tokens, index).Some?
    ensures IsClause(tokens, index, Clause(source, tokens, index).value.next)
    decreases |tokens| - index
  {
    var end := Clause(source, tokens, index).value.next;
    var next := DottedName(source, tokens, index).value.next;
    NamesAreDotted(source, tokens, index);
    if KindIs(tokens, next, Comma) {
      OnlyClausesAreTaken(source, tokens, next + 1);
    }
    assert IsDotted(tokens, index, next);
  }

  ghost predicate BeginsClause(tokens: seq<Token>, start: nat) {
    exists end :: IsClause(tokens, start, end)
  }

  /** So a `with` that begins no clause is passed over, however much of one follows it. */
  lemma BrokenClauseIsSkipped(source: string, tokens: seq<Token>, index: nat)
    requires KindIs(tokens, index, Keyword("with"))
    requires !BeginsClause(tokens, index + 1)
    ensures WithClauses(source, tokens, index, 0) == WithClauses(source, tokens, index + 1, 0)
  {
    if Clause(source, tokens, index + 1).Some? {
      OnlyClausesAreTaken(source, tokens, index + 1);
    }
  }
}
