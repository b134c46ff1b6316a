/**
 Lexing one source under two reserved-word tables. `reconcile.rs` lexes under Ada 2022 to guess the
 dialect and lexes again under the guess; these lemmas say exactly when the two runs line up.
 */
module AdaDialects {
  import opened Common
  import opened AdaTokens
  import opened AdaScan

  /** Equal kinds, or one word that is a keyword under one table and an identifier under the other. */
  ghost predicate SameKind(a: TokenKind, b: TokenKind, r1: WordTable, r2: WordTable) {
    || a == b
    || (a.Keyword? && b.Identifier? && a.word == b.name && r1(a.word) && !r2(a.word))
    || (a.Identifier? && b.Keyword? && a.name == b.word && !r1(a.name) && r2(a.name))
  }

  /** Same span, line and column, and the same kind up to a disputed word. */
  ghost predicate SameToken(a: Token, b: Token, r1: WordTable, r2: WordTable) {
    && (a.start, a.end, a.line, a.col) == (b.start, b.end, b.line, b.col)
    && SameKind(a.kind, b.kind, r1, r2) && SameKind(a.effectiveKind, b.effectiveKind, r1, r2)
  }

  ghost predicate SameTokens(ts: seq<Token>, us: seq<Token>, r1: WordTable, r2: WordTable) {
    && |ts| == |us|
    && (ts == [] || (SameToken(ts[0], us[0], r1, r2) && SameTokens(ts[1..], us[1..], r1, r2)))
  }

  predicate IsDisputedWord(last: Option<TokenKind>, r1: WordTable, r2: WordTable) {
    match last
    case Some(Keyword(w)) => r1(w) != r2(w)
    case Some(Identifier(w)) => r1(w) != r2(w)
    case _ => false
  }

  /** `x'y'` with `x` disputed: an attribute mark if `x` is an identifier, a character literal if not. */
  predicate AmbiguousApostrophe(s: string, t: Token, last: Option<TokenKind>, r1: WordTable, r2: WordTable) {
    && IsDisputedWord(last, r1, r2)
    && t.start < |s| && s[t.start] == '\'' && CharacterCandidate(s, t.start)
  }

  /** No token of `ts`, the significant kind before it being `last`, starts with an ambiguous apostrophe. */
  predicate Unambiguous(s: string, ts: seq<Token>, last: Option<TokenKind>, r1: WordTable, r2: WordTable) {
    ts == [] || (&& !AmbiguousApostrophe(s, ts[0], last, r1, r2)
                 && Unambiguous(s, ts[1..], Remember(last, ts[0].effectiveKind), r1, r2))
  }

  /** What the two runs remember: the same kind, or the two readings of a disputed word. */
  ghost predicate SameLast(a: Option<TokenKind>, b: Option<TokenKind>, r1: WordTable, r2: WordTable) {
    && (a == b || (a.Some? && b.Some? && SameKind(a.value, b.value, r1, r2)))
    && (IsDisputedWord(a, r1, r2) ==> a != b)
  }

  /** One scan under each table: they part exactly at an ambiguous apostrophe. */
  lemma ScansPartOnlyAtApostrophes(s: string, p: Pos, r1: WordTable, r2: WordTable,
                                   last1: Option<TokenKind>, last2: Option<TokenKind>)
    requires p.offset < |s| && !IsWhitespace(s[p.offset])
    requires r1("all") == r2("all") && SameLast(last1, last2, r1, r2)
    ensures var sc1 := Scan(s, p.offset, r1, IsAttributePrefix(last1));
            var sc2 := Scan(s, p.offset, r2, IsAttributePrefix(last2));
            if AmbiguousApostrophe(s, TokenOf(p, sc1), last1, r1, r2)
            then sc1.end != sc2.end
            else sc1.end == sc2.end && sc1.reach == sc2.reach && SameKind(sc1.kind, sc2.kind, r1, r2)
                 && SameLast(Some(sc1.kind), Some(sc2.kind), r1, r2)
  {
  }

  lemma {:induction false} RunsAgreeExactly(s: string, p: Pos, r1: WordTable, r2: WordTable,
                                            last1: Option<TokenKind>, last2: Option<TokenKind>)
    requires p.offset <= |s|
    requires r1("all") == r2("all") && SameLast(last1, last2, r1, r2)
    ensures var ts := LexFrom(s, r1, p, last1);
            SameTokens(ts, LexFrom(s, r2, p, last2), r1, r2) <==> Unambiguous(s, ts, last1, r1, r2)
    decreases |s| - p.offset
  {
    var ts, us := LexFrom(s, r1, p, last1), LexFrom(s, r2, p, last2);
    if p.offset == |s| {
    } else if IsWhitespace(s[p.offset]) {
      RunsAgreeExactly(s, BumpOne(s, p), r1, r2, last1, last2);
    } else {
      ScansPartOnlyAtApostrophes(s, p, r1, r2, last1, last2);
      var sc1 := Scan(s, p.offset, r1, IsAttributePrefix(last1));
      var sc2 := Scan(s, p.offset, r2, IsAttributePrefix(last2));
      assert ts[0] == TokenOf(p, sc1) && us[0] == TokenOf(p, sc2);
      if !AmbiguousApostrophe(s, ts[0], last1, r1, r2) {
        var next := After(s, p, sc1);
        var last1', last2' := Remember(last1, sc1.kind), Remember(last2, sc2.kind);
        RunsAgreeExactly(s, next, r1, r2, last1', last2');
        assert ts[1..] == LexFrom(s, r1, next, last1') && us[1..] == LexFrom(s, r2, next, last2');
      }
    }
  }

  /**
   Two tables give the same tokens, up to the words they dispute, exactly when the first run meets no
   ambiguous apostrophe.
   */
  lemma TablesAgreeExactly(s: string, r1: WordTable, r2: WordTable)
    requires r1("all") == r2("all")
    ensures SameTokens(Tokens(s, r1), Tokens(s, r2), r1, r2) <==> Unambiguous(s, Tokens(s, r1), None, r1, r2)
  {
    RunsAgreeExactly(s, START, r1, r2, None, None);
  }

  /** The standard that introduced a gated word. */
  function Introduced(w: string): AdaStandard
    requires IsGatedWord(w)
  {
    if w == "some" then Ada2012 else if w == "parallel" then Ada2022 else Ada2005
  }

  /** Two dialects dispute exactly the gated words that one of them has and the other does not have yet. */
  lemma DialectsDisputeGatedWords(w: string, d1: AdaStandard, d2: AdaStandard)
    ensures IsReserved(w, d1) != IsReserved(w, d2)
       <==> IsGatedWord(w) && d1.AtLeast(Introduced(w)) != d2.AtLeast(Introduced(w))
  {
  }

  /** Under Ada 83 exactly the gated words are free among those of Ada 2022. */
  lemma Ada83FreesGatedWordsOnly(w: string)
    ensures IsReserved(w, Ada83) <==> IsReserved(w, Ada2022) && !IsGatedWord(w)
  {
    DialectsDisputeGatedWords(w, Ada83, Ada2022);
    if IsReserved(w, Ada83) {
      ReservationsAreKept(w, Ada83, Ada2022);
    }
  }

  /** Words that came after Ada 83 and are not gated. */
  predicate IsUngatedLaterWord(w: string) {
    || w == "abstract" || w == "aliased" || w == "protected" || w == "requeue" || w == "tagged" || w == "until"
  }

  /** So these six stay reserved under every dialect, Ada 83 included. */
  lemma LaterWordsStayReserved(w: string, d: AdaStandard)
    requires IsUngatedLaterWord(w)
    ensures IsReserved(w, d)
  {
  }

  /** No later standard gives a reserved word back, so a probe under the latest reserves the most. */
  lemma ReservationsAreKept(w: string, earlier: AdaStandard, later: AdaStandard)
    requires later.AtLeast(earlier) && IsReserved(w, earlier)
    ensures IsReserved(w, later)
  {
  }

  /** The probe run under `probe` stands for the run under `chosen` exactly when it is unambiguous. */
  lemma ProbeStandsForRelex(s: string, probe: AdaStandard, chosen: AdaStandard)
    ensures var r1, r2 := ReservedWords(probe), ReservedWords(chosen);
            SameTokens(Tokens(s, r1), Tokens(s, r2), r1, r2) <==> Unambiguous(s, Tokens(s, r1), None, r1, r2)
  {
    DialectsDisputeGatedWords("all", probe, chosen);
    TablesAgreeExactly(s, ReservedWords(probe), ReservedWords(chosen));
  }

  lemma LeadingWord(w: string, rest: string, reserved: WordTable)
    requires |w| > 0 && (forall k | 0 <= k < |w| :: 'a' <= w[k] <= 'z')
    requires rest != [] && !IsIdentifierContinue(rest[0])
    ensures Scan(w + rest, 0, reserved, false) == Scanned(KeywordOrIdentifier(w, reserved), |w|, |w|)
  {
    var s := w + rest;
    assert forall k | 0 <= k < |w| :: s[k] == w[k];
    SkipWhileIs(s, 1, IsIdentifierContinue, |w|);
    assert Lower(s[0..|w|]) == w;
  }

  /** Any disputed word `w` followed by a quoted character is read differently. */
  lemma ProbeCanDisagree(w: string, c: char, r1: WordTable, r2: WordTable)
    requires |w| > 0 && (forall k | 0 <= k < |w| :: 'a' <= w[k] <= 'z')
    requires r1(w) != r2(w) && r1("all") == r2("all") && c != '\n' && c != '\''
    ensures var s := w + ['\'', c, '\'']; !SameTokens(Tokens(s, r1), Tokens(s, r2), r1, r2)
  {
    var quoted := ['\'', c, '\''];
    var s := w + quoted;
    TablesAgreeExactly(s, r1, r2);
    LeadingWord(w, quoted, r1);
    var sc := Scan(s, 0, r1, false);
    var rest := LexFrom(s, r1, After(s, START, sc), Some(sc.kind));
    assert Tokens(s, r1) == [TokenOf(START, sc)] + rest;
    assert s[|w|] == '\'' && s[|w| + 1] == c && s[|w| + 2] == '\'';
    assert AmbiguousApostrophe(s, rest[0], Some(sc.kind), r1, r2);
  }

  /** `synchronized'x'` ends in a character literal under Ada 2022 and in marks before Ada 2005. */
  lemma SynchronizedIsReadDifferently(d: AdaStandard)
    requires !d.AtLeast(Ada2005)
    ensures IsReserved("synchronized", Ada2022) && !IsReserved("synchronized", d)
    ensures var s, r1, r2 := "synchronized" + ['\'', 'x', '\''], ReservedWords(Ada2022), ReservedWords(d);
            !SameTokens(Tokens(s, r1), Tokens(s, r2), r1, r2)
  {
    DialectsDisputeGatedWords("all", Ada2022, d);
    ProbeCanDisagree("synchronized", 'x', ReservedWords(Ada2022), ReservedWords(d));
  }
}
