/** The reader of `with` clauses over the significant tokens of a compilation unit. */
module ContextClauses {
  import opened Common
  import opened AdaTokens

  datatype UnitRef = UnitRef(name: string)

  /** Names read, and the index just past them. */
  datatype Parsed<T> = Parsed(value: T, next: nat)

  function SignificantTokens(ts: seq<Token>): seq<Token> {
    if ts == [] then []
    else (if ts[0].effectiveKind.Comment? then [] else [ts[0]]) + SignificantTokens(ts[1..])
  }

  predicate IsLibraryItemStart(kind: TokenKind) {
    && kind.Keyword?
    && (|| kind.word == "generic" || kind.word == "package" || kind.word == "procedure" || kind.word == "function"
        || kind.word == "separate" || kind.word == "protected" || kind.word == "task")
  }

  predicate KindIs(tokens: seq<Token>, index: nat, kind: TokenKind) {
    index < |tokens| && tokens[index].effectiveKind == kind
  }

  function IdentifierSourceText(source: string, tokens: seq<Token>, index: nat): Option<string> {
    if index >= |tokens| || !tokens[index].effectiveKind.Identifier? then None
    else
      var t := tokens[index];
      if t.start <= t.end <= |source| then Some(source[t.start..t.end]) else None
  }

  function DottedName(source: string, tokens: seq<Token>, index: nat): (r: Option<Parsed<string>>)
    ensures r.Some? ==> index < r.value.next <= |tokens|
    decreases |tokens| - index
  {
    match IdentifierSourceText(source, tokens, index)
    case None => None
    case Some(part) =>
      if !KindIs(tokens, index + 1, Dot) then Some(Parsed(part, index + 1))
      else
        match DottedName(source, tokens, index + 2)
        case None => None
        case Some(rest) => Some(Parsed(part + "." + rest.value, rest.next))
  }

  function Clause(source: string, tokens: seq<Token>, index: nat): (r: Option<Parsed<seq<UnitRef>>>)
    ensures r.Some? ==> index < r.value.next <= |tokens|
    decreases |tokens| - index
  {
    match DottedName(source, tokens, index)
    case None => None
    case Some(first) =>
      if KindIs(tokens, first.next, Comma) then
        match Clause(source, tokens, first.next + 1)
        case None => None
        case Some(rest) => Some(Parsed([UnitRef(first.value)] + rest.value, rest.next))
      else if KindIs(tokens, first.next, Semicolon) then Some(Parsed([UnitRef(first.value)], first.next + 1))
      else None
  }

  /** Where the names of a `with` or `limited with` clause at `index` would begin, outside parentheses. */
  function ClauseStart(tokens: seq<Token>, index: nat): Option<nat> {
    if KindIs(tokens, index, Keyword("with")) then Some(index + 1)
    else if KindIs(tokens, index, Keyword("limited")) && KindIs(tokens, index + 1, Keyword("with")) then Some(index + 2)
    else None
  }

  function ClauseAt(source: string, tokens: seq<Token>, index: nat): (r: Option<Parsed<seq<UnitRef>>>)
    ensures r.Some? ==> index < r.value.next <= |tokens|
  {
    match ClauseStart(tokens, index)
    case None => None
    case Some(start) => Clause(source, tokens, start)
  }

  function WithClauses(source: string, tokens: seq<Token>, index: nat, depth: nat): seq<UnitRef>
    decreases |tokens| - index
  {
    if index >= |tokens| then []
    else
      var kind := tokens[index].effectiveKind;
      if kind == LParen then WithClauses(source, tokens, index + 1, depth + 1)
      else if kind == RParen then WithClauses(source, tokens, index + 1, if depth > 0 then depth - 1 else 0)
      else if depth > 0 then WithClauses(source, tokens, index + 1, depth)
      else if IsLibraryItemStart(kind) then []
      else
        match ClauseAt(source, tokens, index)
        case None => WithClauses(source, tokens, index + 1, depth)
        case Some(units) => units.value + WithClauses(source, tokens, units.next, depth)
  }

  // --------------------------------------------------------- the source's loops

  function Join(parts: seq<string>): string
    requires |parts| > 0
  {
    if |parts| == 1 then parts[0] else Join(parts[..|parts| - 1]) + "." + parts[|parts| - 1]
  }

  /** The name once `parts` are read and `index` is reached. */
  ghost function NameFrom(source: string, tokens: seq<Token>, parts: seq<string>, index: nat): Option<Parsed<string>>
    requires |parts| > 0
  {
    if !KindIs(tokens, index, Dot) then Some(Parsed(Join(parts), index))
    else
      match DottedName(source, tokens, index + 1)
      case None => None
      case Some(rest) => Some(Parsed(Join(parts) + "." + rest.value, rest.next))
  }

  lemma NameFromStep(source: string, tokens: seq<Token>, parts: seq<string>, index: nat)
    requires |parts| > 0 && KindIs(tokens, index, Dot)
    ensures NameFrom(source, tokens, parts, index) ==
            match IdentifierSourceText(source, tokens, index + 1)
            case None => None
            case Some(part) => NameFrom(source, tokens, parts + [part], index + 2)
  {
    match IdentifierSourceText(source, tokens, index + 1) {
      case None =>
      case Some(part) =>
        var longer := parts + [part];
        assert longer[..|longer| - 1] == parts;
        if KindIs(tokens, index + 2, Dot) {
          match DottedName(source, tokens, index + 3) {
            case None =>
            case Some(rest) =>
              assert Join(parts) + "." + (part + "." + rest.value) == Join(longer) + "." + rest.value;
          }
        }
    }
  }

  method ParseDottedUnitName(source: string, tokens: seq<Token>, start: nat) returns (r: Option<Parsed<string>>)
    ensures r == DottedName(source, tokens, start)
  {
    var first := IdentifierSourceText(source, tokens, start);
    if first == None {
      return None;
    }
    var parts, index := [first.value], start + 1;
    while KindIs(tokens, index, Dot)
      invariant |parts| > 0 && NameFrom(source, tokens, parts, index) == DottedName(source, tokens, start)
      decreases |tokens| - index
    {
      NameFromStep(source, tokens, parts, index);
      var part := IdentifierSourceText(source, tokens, index + 1);
      if part == None {
        return None;
      }
      parts, index := parts + [part.value], index + 2;
    }
    return Some(Parsed(Join(parts), index));
  }

  /** The clause once `units` are read and `index` is reached. */
  ghost function ClauseFrom(source: string, tokens: seq<Token>, units: seq<UnitRef>, index: nat): Option<Parsed<seq<UnitRef>>> {
    match Clause(source, tokens, index)
    case None => None
    case Some(rest) => Some(Parsed(units + rest.value, rest.next))
  }

  method ParseWithClause(source: string, tokens: seq<Token>, start: nat) returns (r: Option<Parsed<seq<UnitRef>>>)
    ensures r == Clause(source, tokens, start)
  {
    var units: seq<UnitRef> := [];
    var index := start;
    assert forall rest: seq<UnitRef> :: units + rest == rest;
    while true
      invariant ClauseFrom(source, tokens, units, index) == Clause(source, tokens, start)
      decreases |tokens| - index
    {
      var name := ParseDottedUnitName(source, tokens, index);
      if name == None {
        return None;
      }
      ghost var before := units;
      units := units + [UnitRef(name.value.value)];
      index := name.value.next;
      if KindIs(tokens, index, Comma) {
        index := index + 1;
        assert forall rest: seq<UnitRef> :: before + ([UnitRef(name.value.value)] + rest) == units + rest;
      } else if KindIs(tokens, index, Semicolon) {
        return Some(Parsed(units, index + 1));
      } else {
        return None;
      }
    }
  }

  method ExtractWithClauses(source: string, tokens: seq<Token>) returns (withs: seq<UnitRef>)
    ensures withs == WithClauses(source, tokens, 0, 0)
  {
    withs := [];
    var index: nat, parenDepth: nat := 0, 0;
    while index < |tokens|
      invariant withs + WithClauses(source, tokens, index, parenDepth) == WithClauses(source, tokens, 0, 0)
      decreases |tokens| - index
    {
      var kind := tokens[index].effectiveKind;
      if kind == LParen {
        parenDepth := parenDepth + 1;
        index := index + 1;
      } else if kind == RParen {
        parenDepth := if parenDepth > 0 then parenDepth - 1 else 0;
        index := index + 1;
      } else if parenDepth == 0 && IsLibraryItemStart(kind) {
        break;
      } else if kind == Keyword("with") && parenDepth == 0 {
        var clause := ParseWithClause(source, tokens, index + 1);
        withs, index := Taken(source, tokens, withs, index, clause);
      } else if kind == Keyword("limited") && parenDepth == 0 && KindIs(tokens, index + 1, Keyword("with")) {
        var clause := ParseWithClause(source, tokens, index + 2);
        withs, index := Taken(source, tokens, withs, index, clause);
      } else {
        index := index + 1;
      }
    }
  }

  /** Appends the units of a parsed clause and moves past it, or moves one token on. */
  method Taken(source: string, tokens: seq<Token>, withs: seq<UnitRef>, index: nat, clause: Option<Parsed<seq<UnitRef>>>)
      returns (withs': seq<UnitRef>, index': nat)
    requires index < |tokens| && !IsLibraryItemStart(tokens[index].effectiveKind)
    requires ClauseStart(tokens, index).Some? && clause == Clause(source, tokens, ClauseStart(tokens, index).value)
    ensures index < index' <= |tokens|
    ensures withs' + WithClauses(source, tokens, index', 0) == withs + WithClauses(source, tokens, index, 0)
  {
    if clause.Some? {
      withs', index' := withs + clause.value.value, clause.value.next;
      assert withs' + WithClauses(source, tokens, index', 0)
          == withs + (clause.value.value + WithClauses(source, tokens, index', 0));
    } else {
      withs', index' := withs, index + 1;
    }
  }

  // ------------------------------------------- nothing past the library item

  /** The depth behind a token. */
  function DepthAfter(kind: TokenKind, depth: nat): nat {
    if kind == LParen then depth + 1 else if kind == RParen && depth > 0 then depth - 1 else depth
  }

  /** The parenthesis depth at `k`, starting from `depth` at `index`. */
  function DepthAt(tokens: seq<Token>, index: nat, depth: nat, k: nat): nat
    requires index <= k <= |tokens|
    decreases k - index
  {
    if index == k then depth else DepthAt(tokens, index + 1, DepthAfter(tokens[index].effectiveKind, depth), k)
  }

  predicate SameUpTo(a: seq<Token>, b: seq<Token>, k: nat) {
    k < |a| && k < |b| && a[..k + 1] == b[..k + 1]
  }

  lemma SameAt(a: seq<Token>, b: seq<Token>, k: nat, i: nat)
    requires SameUpTo(a, b, k) && i <= k
    ensures a[i] == b[i]
  {
    assert a[i] == a[..k + 1][i] && b[i] == b[..k + 1][i];
  }

  lemma {:induction false} NameStopsBeforeItem(source: string, a: seq<Token>, b: seq<Token>, k: nat, index: nat, depth: nat)
    requires SameUpTo(a, b, k) && IsLibraryItemStart(a[k].effectiveKind) && index <= k
    ensures DottedName(source, a, index) == DottedName(source, b, index)
    ensures var r := DottedName(source, a, index);
            r.Some? ==> r.value.next <= k && DepthAt(a, index, depth, k) == DepthAt(a, r.value.next, depth, k)
    decreases k - index
  {
    SameAt(a, b, k, index);
    if IdentifierSourceText(source, a, index).Some? {
      SameAt(a, b, k, index + 1);
      if KindIs(a, index + 1, Dot) {
        NameStopsBeforeItem(source, a, b, k, index + 2, depth);
        assert DepthAt(a, index + 1, depth, k) == DepthAt(a, index + 2, depth, k);
      }
    }
  }

  lemma DepthPastMark(a: seq<Token>, index: nat, depth: nat, k: nat)
    requires index < k <= |a| && (KindIs(a, index, Comma) || KindIs(a, index, Semicolon))
    ensures DepthAt(a, index, depth, k) == DepthAt(a, index + 1, depth, k)
  {
  }

  /** Where a clause goes on, and where it ends. */
  lemma ClauseUnfolds(source: string, tokens: seq<Token>, index: nat, name: Parsed<string>)
    requires DottedName(source, tokens, index) == Some(name)
    ensures KindIs(tokens, name.next, Comma) ==>
              Clause(source, tokens, index) ==
              match Clause(source, tokens, name.next + 1)
              case None => None
              case Some(rest) => Some(Parsed([UnitRef(name.value)] + rest.value, rest.next))
    ensures KindIs(tokens, name.next, Semicolon) ==>
              Clause(source, tokens, index) == Some(Parsed([UnitRef(name.value)], name.next + 1))
    ensures !KindIs(tokens, name.next, Comma) && !KindIs(tokens, name.next, Semicolon) ==>
              Clause(source, tokens, index) == None
  {
  }

  lemma {:induction false} ClauseStopsBeforeItem(source: string, a: seq<Token>, b: seq<Token>, k: nat, index: nat, depth: nat)
    requires SameUpTo(a, b, k) && IsLibraryItemStart(a[k].effectiveKind) && index <= k
    ensures Clause(source, a, index) == Clause(source, b, index)
    ensures var r := Clause(source, a, index);
            r.Some? ==> r.value.next <= k && DepthAt(a, index, depth, k) == DepthAt(a, r.value.next, depth, k)
    decreases k - index
  {
    NameStopsBeforeItem(source, a, b, k, index, depth);
    var name := DottedName(source, a, index);
    if name.Some? {
      var next := name.value.next;
      SameAt(a, b, k, next);
      ClauseUnfolds(source, a, index, name.value);
      ClauseUnfolds(source, b, index, name.value);
      if KindIs(a, next, Comma) {
        ClauseStopsBeforeItem(source, a, b, k, next + 1, depth);
        assert DepthAt(a, index, depth, k) == DepthAt(a, next + 1, depth, k) by { DepthPastMark(a, next, depth, k); }
      } else if KindIs(a, next, Semicolon) {
        DepthPastMark(a, next, depth, k);
      }
    }
  }

  /** A clause outside parentheses, begun before the library item, is read alike and ends before it. */
  lemma ClauseAtStopsBeforeItem(source: string, a: seq<Token>, b: seq<Token>, k: nat, index: nat)
    requires SameUpTo(a, b, k) && IsLibraryItemStart(a[k].effectiveKind) && index < k
    ensures ClauseAt(source, a, index) == ClauseAt(source, b, index)
    ensures var r := ClauseAt(source, a, index);
            r.Some? ==> r.value.next <= k && DepthAt(a, index, 0, k) == DepthAt(a, r.value.next, 0, k)
  {
    SameAt(a, b, k, index);
    SameAt(a, b, k, index + 1);
    if ClauseStart(a, index).Some? {
      var start := ClauseStart(a, index).value;
      assert start <= k && DepthAt(a, index, 0, k) == DepthAt(a, start, 0, k);
      ClauseStopsBeforeItem(source, a, b, k, start, 0);
    }
  }

  lemma {:induction false} WithClausesStopAtItem(source: string, a: seq<Token>, b: seq<Token>, k: nat, index: nat, depth: nat)
    requires SameUpTo(a, b, k) && IsLibraryItemStart(a[k].effectiveKind)
    requires index <= k && DepthAt(a, index, depth, k) == 0
    ensures WithClauses(source, a, index, depth) == WithClauses(source, b, index, depth)
    decreases k - index
  {
    SameAt(a, b, k, index);
    if index < k {
      var kind := a[index].effectiveKind;
      WithClausesStopAtItem(source, a, b, k, index + 1, DepthAfter(kind, depth));
      if depth == 0 {
        ClauseAtStopsBeforeItem(source, a, b, k, index);
        var clause := ClauseAt(source, a, index);
        if clause.Some? {
          WithClausesStopAtItem(source, a, b, k, clause.value.next, 0);
        }
      }
    }
  }

  /** Whatever follows the first library item outside parentheses has no influence on what is read. */
  lemma NothingPastLibraryItem(source: string, a: seq<Token>, b: seq<Token>, k: nat)
    requires SameUpTo(a, b, k) && IsLibraryItemStart(a[k].effectiveKind) && DepthAt(a, 0, 0, k) == 0
    ensures WithClauses(source, a, 0, 0) == WithClauses(source, b, 0, 0)
  {
    WithClausesStopAtItem(source, a, b, k, 0, 0);
  }
}
