/** What any header lines make of a frame: told by the lines, their names and their values. */
module JsonRpcHeaders {
  import opened Common
  import opened Bytes
  import opened Decimal
  import opened JsonRpc

  predicate Lacks(s: seq<byte>, b: byte) {
    forall k | 0 <= k < |s| :: s[k] != b
  }

  /** The text of a header line, without its newline: any but the blank ones. */
  predicate IsLine(l: seq<byte>) {
    |l| > 0 && l != [13] && Lacks(l, 10)
  }

  predicate AreLines(ls: seq<seq<byte>>) {
    ls == [] || (IsLine(ls[0]) && AreLines(ls[1..]))
  }

  /** Lines as they are sent, and as they are read. */
  function Sent(ls: seq<seq<byte>>): seq<byte> {
    if ls == [] then [] else ls[0] + [10] + Sent(ls[1..])
  }

  function Ended(ls: seq<seq<byte>>): seq<seq<byte>> {
    if ls == [] then [] else [ls[0] + [10]] + Ended(ls[1..])
  }

  // ------------------------------------------------------------------- the lines

  lemma LineIsRead(data: seq<byte>, pos: nat, l: seq<byte>, rest: seq<byte>, end: nat)
    requires Lacks(l, 10) && pos <= |data| && data[pos..] == l + [10] + rest && end == pos + |l| + 1
    ensures LineEnd(data, pos) == end <= |data| && data[pos..end] == l + [10] && data[end..] == rest
  {
    RestSplit(data, pos, l + [10], rest);
    LineEndIs(data, pos, l + [10]);
  }

  /** Any lines and a blank one, with or without a carriage return, are the headers. */
  lemma {:induction false} LinesAreRead(data: seq<byte>, pos: nat, ls: seq<seq<byte>>, blank: seq<byte>, rest: seq<byte>)
    requires AreLines(ls) && (blank == [10] || blank == [13, 10])
    requires pos <= |data| && data[pos..] == Sent(ls) + (blank + rest)
    ensures |data| >= |rest| && ReadHeaders(data, pos) == Some(Headers(Ended(ls), |data| - |rest|))
    decreases |ls|
  {
    if ls == [] {
      assert [] + (blank + rest) == blank + rest;
      BlankIsRead(data, pos, blank, rest);
    } else {
      var l, more := ls[0], Sent(ls[1..]);
      var end := pos + |l| + 1;
      Regroup(l + [10], more, blank + rest);
      LineIsRead(data, pos, l, more + (blank + rest), end);
      LinesAreRead(data, end, ls[1..], blank, rest);
      FirstHeader(data, pos, l + [10], end);
    }
  }

  lemma BlankIsRead(data: seq<byte>, pos: nat, blank: seq<byte>, rest: seq<byte>)
    requires (blank == [10] || blank == [13, 10]) && pos <= |data| && data[pos..] == blank + rest
    ensures pos + |blank| + |rest| == |data| && ReadHeaders(data, pos) == Some(Headers([], |data| - |rest|))
  {
    assert |data[pos..]| == |blank| + |rest|;
    if blank == [10] {
      assert blank + rest == [] + [10] + rest;
      LineIsRead(data, pos, [], rest, pos + 1);
    } else {
      assert blank + rest == [13] + [10] + rest;
      LineIsRead(data, pos, [13], rest, pos + 2);
    }
  }

  lemma FirstHeader(data: seq<byte>, pos: nat, line: seq<byte>, end: nat)
    requires pos <= end <= |data| && LineEnd(data, pos) == end && data[pos..end] == line
    requires |line| > 0 && line != [10] && line != [13, 10]
    ensures ReadHeaders(data, pos) == match ReadHeaders(data, end)
                                      case None => None
                                      case Some(h) => Some(Headers([line] + h.lines, h.next))
  {
  }

  lemma {:induction false} NoLineEnd(data: seq<byte>, pos: nat)
    requires pos <= |data| && forall k | pos <= k < |data| :: data[k] != 10
    ensures LineEnd(data, pos) == |data|
    decreases |data| - pos
  {
    if pos < |data| {
      NoLineEnd(data, pos + 1);
    }
  }

  /** Without a blank line the headers are cut short, and the stream is read to its end. */
  lemma {:induction false} UnendedHeadersFail(data: seq<byte>, pos: nat, ls: seq<seq<byte>>, cut: seq<byte>)
    requires AreLines(ls) && Lacks(cut, 10) && pos <= |data| && data[pos..] == Sent(ls) + cut
    ensures ReadHeaders(data, pos) == None && Frame(data, pos) == FrameOutcome(Err(HeadersCutShort), |data|)
    decreases |ls|
  {
    if ls == [] {
      assert [] + cut == cut;
      assert forall k | pos <= k < |data| :: data[k] == data[pos..][k - pos];
      NoLineEnd(data, pos);
      NoLineEnd(data, |data|);
    } else {
      var l, more := ls[0], Sent(ls[1..]);
      var end := pos + |l| + 1;
      Regroup(l + [10], more, cut);
      LineIsRead(data, pos, l, more + cut, end);
      UnendedHeadersFail(data, end, ls[1..], cut);
      FirstHeader(data, pos, l + [10], end);
    }
  }

  // ------------------------------------------------------------- names and values

  /** `content-length`, each letter in either case. */
  predicate IsLengthName(name: seq<byte>) {
    var lower: seq<byte> := [99, 111, 110, 116, 101, 110, 116, 45, 108, 101, 110, 103, 116, 104];
    && |name| == 14
    && forall k | 0 <= k < 14 :: name[k] == lower[k] || (lower[k] != 45 && (name[k] as int) + 32 == lower[k])
  }

  lemma LengthNameBytes()
    ensures LengthName() == [99, 111, 110, 116, 101, 110, 116, 45, 108, 101, 110, 103, 116, 104]
  {
  }

  lemma IsLengthNameExactly(name: seq<byte>)
    ensures LowerAscii(name) == LengthName() <==> IsLengthName(name)
  {
    LengthNameBytes();
    if LowerAscii(name) == LengthName() {
      assert |name| == 14;
      assert forall k | 0 <= k < 14 :: LowerAscii(name)[k] == LowerByte(name[k]) == LengthName()[k];
    }
    if IsLengthName(name) {
      assert forall k | 0 <= k < 14 :: LowerByte(name[k]) == LengthName()[k];
    }
  }

  lemma {:induction false} NoColon(s: seq<byte>)
    requires Lacks(s, 58)
    ensures ColonAt(s) == |s|
  {
    if s != [] {
      NoColon(s[1..]);
    }
  }

  /** A line that names another field, or none. */
  predicate IsOther(l: seq<byte>, name: seq<byte>, value: seq<byte>) {
    && (forall k | 0 <= k < |l| :: l[k] < 128) && Lacks(name, 58)
    && (l == name || (l == name + ([58] + value) && !IsLengthName(name)))
  }

  lemma NameAndValue(name: seq<byte>, value: seq<byte>)
    requires Lacks(name, 58)
    ensures var line := name + ([58] + value) + [10];
            FieldName(line) == name && FieldValue(line) == value + [10]
  {
    var line := name + ([58] + value) + [10];
    assert line[|name|] == 58 && line[..|name|] == name && line[|name| + 1..] == value + [10];
    ColonIs(line, |name|);
  }

  lemma OtherIsSkipped(l: seq<byte>, name: seq<byte>, value: seq<byte>, more: seq<seq<byte>>)
    requires IsOther(l, name, value)
    ensures ContentLength([l + [10]] + more) == ContentLength(more)
  {
    var line := l + [10];
    assert ([line] + more)[1..] == more;
    assert IsAscii(line);
    if l == name {
      NoColon(line);
      LengthNameBytes();
      assert FieldName(line) == line && LowerAscii(line)[|line| - 1] == 10;
    } else {
      NameAndValue(name, value);
      IsLengthNameExactly(name);
    }
  }

  /** A header field, or a line without a colon when there is no value. */
  datatype Field = Field(name: seq<byte>, value: Option<seq<byte>>)

  function FieldLine(f: Field): seq<byte> {
    if f.value.Some? then f.name + ([58] + f.value.value) else f.name
  }

  predicate IsField(f: Field) {
    IsLine(FieldLine(f)) && Lacks(f.name, 58) && forall k | 0 <= k < |FieldLine(f)| :: FieldLine(f)[k] < 128
  }

  function FieldLines(fs: seq<Field>): seq<seq<byte>> {
    if fs == [] then [] else [FieldLine(fs[0])] + FieldLines(fs[1..])
  }

  /** Fields none of which is the content length. */
  predicate AreOthers(fs: seq<Field>) {
    fs == [] || (IsField(fs[0]) && (fs[0].value.Some? ==> !IsLengthName(fs[0].name)) && AreOthers(fs[1..]))
  }

  lemma {:induction false} OthersAreSkipped(fs: seq<Field>, more: seq<seq<byte>>)
    requires AreOthers(fs)
    ensures ContentLength(Ended(FieldLines(fs)) + more) == ContentLength(more)
  {
    if fs == [] {
      assert [] + more == more;
    } else {
      var f, rest := fs[0], Ended(FieldLines(fs[1..]));
      assert FieldLines(fs)[1..] == FieldLines(fs[1..]);
      Regroup([FieldLine(f) + [10]], rest, more);
      OtherIsSkipped(FieldLine(f), f.name, if f.value.Some? then f.value.value else [], rest + more);
      OthersAreSkipped(fs[1..], more);
    }
  }

  lemma LengthIsTaken(name: seq<byte>, value: seq<byte>, more: seq<seq<byte>>)
    requires IsLengthName(name) && Lacks(name, 58) && IsField(Field(name, Some(value)))
    ensures ContentLength([name + ([58] + value) + [10]] + more)
         == match PyInt(value + [10]) case None => Err(BadLength) case Some(n) => Ok(n)
  {
    var line := name + ([58] + value) + [10];
    assert ([line] + more)[0] == line;
    NameAndValue(name, value);
    IsLengthNameExactly(name);
    assert IsAscii(line);
  }

  lemma {:induction false} EndedAppend(a: seq<seq<byte>>, b: seq<seq<byte>>)
    ensures Ended(a + b) == Ended(a) + Ended(b)
  {
    if a == [] {
      assert a + b == b;
    } else {
      assert (a + b)[1..] == a[1..] + b && (a + b)[0] == a[0];
      EndedAppend(a[1..], b);
      Regroup([a[0] + [10]], Ended(a[1..]), Ended(b));
    }
  }

  lemma {:induction false} LinesAppend(a: seq<seq<byte>>, b: seq<seq<byte>>)
    requires AreLines(a) && AreLines(b)
    ensures AreLines(a + b)
  {
    if a == [] {
      assert a + b == b;
    } else {
      assert (a + b)[1..] == a[1..] + b && (a + b)[0] == a[0];
      LinesAppend(a[1..], b);
    }
  }

  lemma {:induction false} OthersAreLines(fs: seq<Field>)
    requires AreOthers(fs)
    ensures AreLines(FieldLines(fs))
  {
    if fs != [] {
      assert FieldLines(fs)[1..] == FieldLines(fs[1..]);
      OthersAreLines(fs[1..]);
    }
  }

  // ------------------------------------------------------------------- the frame

  /** What a length makes of the bytes behind the headers, which end at `next`. */
  function BodyBehind(length: Option<int>, rest: seq<byte>, next: nat): FrameOutcome {
    match length
    case None => FrameOutcome(Err(BadLength), next)
    case Some(n) =>
      if n < -1 then FrameOutcome(Err(BadLength), next)
      else if n == -1 || n > |rest| then FrameOutcome(Err(BodyCutShort), next + |rest|)
      else FrameOutcome(Ok(rest[..n]), next + n)
  }

  lemma HeadersDecide(data: seq<byte>, pos: nat, lines: seq<seq<byte>>, rest: seq<byte>, length: Option<int>)
    requires pos <= |data| && |rest| <= |data| && data[|data| - |rest|..] == rest
    requires ReadHeaders(data, pos) == Some(Headers(lines, |data| - |rest|))
    requires ContentLength(lines) == match length case None => Err(BadLength) case Some(n) => Ok(n)
    ensures Frame(data, pos) == BodyBehind(length, rest, |data| - |rest|)
  {
    var next := |data| - |rest|;
    if length.Some? && 0 <= length.value <= |rest| {
      SliceOfRest(data, next, 0, length.value);
    }
  }

  /**
   Other fields may stand in front of the content length, and anything but a newline in lines behind it. Its
   name is read in any case, and its value decides what of the bytes behind the blank line is the body.
   */
  lemma FirstLengthDecides(data: seq<byte>, pos: nat, before: seq<Field>, name: seq<byte>, value: seq<byte>,
                           after: seq<seq<byte>>, blank: seq<byte>, rest: seq<byte>)
    requires AreOthers(before) && IsLengthName(name) && Lacks(name, 58) && IsField(Field(name, Some(value))) && AreLines(after)
    requires blank == [10] || blank == [13, 10]
    requires pos <= |data|
    requires data[pos..] == Sent(FieldLines(before) + ([name + ([58] + value)] + after)) + (blank + rest)
    ensures |rest| <= |data| && Frame(data, pos) == BodyBehind(PyInt(value + [10]), rest, |data| - |rest|)
  {
    var own := [name + ([58] + value)] + after;
    assert own[1..] == after;
    OthersAreLines(before);
    LinesAppend(FieldLines(before), own);
    LinesAreRead(data, pos, FieldLines(before) + own, blank, rest);
    EndedAppend(FieldLines(before), own);
    OthersAreSkipped(before, Ended(own));
    LengthIsTaken(name, value, Ended(after));
    RestBehind(data, pos, Sent(FieldLines(before) + own) + blank, blank, rest);
    HeadersDecide(data, pos, Ended(FieldLines(before) + own), rest, PyInt(value + [10]));
  }

  lemma RestBehind(data: seq<byte>, pos: nat, front: seq<byte>, blank: seq<byte>, rest: seq<byte>)
    requires pos <= |data| && exists lines: seq<byte> :: front == lines + blank && data[pos..] == lines + (blank + rest)
    ensures |rest| <= |data| && data[|data| - |rest|..] == rest
  {
    var lines: seq<byte> :| front == lines + blank && data[pos..] == lines + (blank + rest);
    Regroup(lines, blank, rest);
    RestSplit(data, pos, front, rest);
  }

  /** Without a content length there is no frame; the stream is left behind the blank line. */
  lemma MissingLengthFails(data: seq<byte>, pos: nat, fields: seq<Field>, blank: seq<byte>, rest: seq<byte>)
    requires AreOthers(fields) && (blank == [10] || blank == [13, 10])
    requires pos <= |data| && data[pos..] == Sent(FieldLines(fields)) + (blank + rest)
    ensures |rest| <= |data| && Frame(data, pos) == FrameOutcome(Err(MissingLength), |data| - |rest|)
  {
    OthersAreLines(fields);
    LinesAreRead(data, pos, FieldLines(fields), blank, rest);
    OthersAreSkipped(fields, []);
    assert Ended(FieldLines(fields)) + [] == Ended(FieldLines(fields));
  }

  /** Nor with a line that is not ASCII in front of it. */
  lemma NotAsciiFails(data: seq<byte>, pos: nat, before: seq<Field>, line: seq<byte>, k: nat, after: seq<seq<byte>>,
                      blank: seq<byte>, rest: seq<byte>)
    requires AreOthers(before) && IsLine(line) && k < |line| && line[k] >= 128 && AreLines(after)
    requires blank == [10] || blank == [13, 10]
    requires pos <= |data| && data[pos..] == Sent(FieldLines(before) + ([line] + after)) + (blank + rest)
    ensures |rest| <= |data| && Frame(data, pos) == FrameOutcome(Err(NotAscii), |data| - |rest|)
  {
    var own := [line] + after;
    assert own[1..] == after;
    OthersAreLines(before);
    LinesAppend(FieldLines(before), own);
    LinesAreRead(data, pos, FieldLines(before) + own, blank, rest);
    EndedAppend(FieldLines(before), own);
    OthersAreSkipped(before, Ended(own));
    assert (line + [10])[k] >= 128;
  }

  // ------------------------------------------------------------------- the numbers

  predicate AreSpaces(s: seq<byte>) {
    forall k | 0 <= k < |s| :: 9 <= s[k] <= 13 || 28 <= s[k] <= 32
  }

  lemma {:induction false} LeadIsStripped(lead: seq<byte>, s: seq<byte>)
    requires AreSpaces(lead) && |s| > 0 && !IsPySpace(s[0])
    ensures StripStart(lead + s) == s
  {
    if lead == [] {
      assert lead + s == s;
    } else {
      assert (lead + s)[1..] == lead[1..] + s;
      LeadIsStripped(lead[1..], s);
    }
  }

  lemma {:induction false} TrailIsStripped(s: seq<byte>, trail: seq<byte>)
    requires AreSpaces(trail) && |s| > 0 && !IsPySpace(s[|s| - 1])
    ensures StripEnd(s + trail) == s
  {
    if trail == [] {
      assert s + trail == s;
    } else {
      assert (s + trail)[..|s + trail| - 1] == s + trail[..|trail| - 1];
      TrailIsStripped(s, trail[..|trail| - 1]);
    }
  }

  lemma InkIsStripped(lead: seq<byte>, s: seq<byte>, trail: seq<byte>)
    requires AreSpaces(lead) && AreSpaces(trail) && |s| > 0 && !IsPySpace(s[0]) && !IsPySpace(s[|s| - 1])
    ensures Strip(lead + (s + trail)) == s
  {
    LeadIsStripped(lead, s + trail);
    TrailIsStripped(s, trail);
  }

  /** Groups of digits joined by single underscores, and the digits alone. */
  function Grouped(groups: seq<seq<byte>>): seq<byte>
    requires |groups| > 0
  {
    if |groups| == 1 then groups[0] else Grouped(groups[..|groups| - 1]) + [95] + groups[|groups| - 1]
  }

  function Flat(groups: seq<seq<byte>>): seq<byte> {
    if |groups| == 0 then [] else Flat(groups[..|groups| - 1]) + groups[|groups| - 1]
  }

  predicate IsGroup(s: seq<byte>) {
    |s| > 0 && forall k | 0 <= k < |s| :: 48 <= s[k] <= 57
  }

  predicate AreGroups(groups: seq<seq<byte>>) {
    && |groups| > 0 && IsGroup(groups[|groups| - 1])
    && (|groups| > 1 ==> AreGroups(groups[..|groups| - 1]))
  }

  predicate AreMarks(s: seq<byte>) {
    forall k | 0 <= k < |s| :: IsDigit(s[k]) || s[k] == UNDERSCORE
  }

  lemma MarksJoin(a: seq<byte>, b: seq<byte>)
    requires AreMarks(a) && AreMarks(b)
    ensures AreMarks(a + b)
  {
  }

  lemma FirstMark(b: byte, s: seq<byte>)
    requires AreMarks([b] + s)
    ensures AreMarks(s)
    ensures WithoutUnderscores([b] + s) == (if b == UNDERSCORE then [] else [b]) + WithoutUnderscores(s)
  {
    var whole := [b] + s;
    assert whole[1..] == s;
    forall k | 0 <= k < |s|
      ensures IsDigit(s[k]) || s[k] == UNDERSCORE
    {
      assert s[k] == whole[k + 1];
    }
  }

  lemma {:induction false} WithoutUnderscoresAppend(a: seq<byte>, b: seq<byte>)
    requires AreMarks(a) && AreMarks(b)
    ensures AreMarks(a + b) && WithoutUnderscores(a + b) == WithoutUnderscores(a) + WithoutUnderscores(b)
  {
    if a == [] {
      assert a + b == b;
    } else {
      var first, more := a[0], a[1..];
      assert a == [first] + more && a + b == [first] + (more + b);
      MarksJoin(a, b);
      FirstMark(first, more);
      FirstMark(first, more + b);
      WithoutUnderscoresAppend(more, b);
      Regroup(if first == UNDERSCORE then [] else [first], WithoutUnderscores(more), WithoutUnderscores(b));
    }
  }

  lemma GroupsJoin(front: seq<byte>, group: seq<byte>)
    requires IsPyDigits(front) && |group| > 0 && AllDigits(group)
    ensures IsPyDigits(front + [95] + group)
  {
    var s := front + [95] + group;
    MarksJoin(front, [95]);
    MarksJoin(front + [95], group);
    assert s[..|front|] == front && s[|front| + 1..] == group && s[|front|] == 95;
    forall k | 0 < k < |s|
      ensures s[k] == UNDERSCORE ==> s[k - 1] != UNDERSCORE
    {
      UnderscoresApart(front, group, k);
    }
  }

  lemma UnderscoresApart(front: seq<byte>, group: seq<byte>, k: nat)
    requires IsPyDigits(front) && |group| > 0 && AllDigits(group)
    requires 0 < k < |front| + 1 + |group|
    ensures (front + [95] + group)[k] == UNDERSCORE ==> (front + [95] + group)[k - 1] != UNDERSCORE
  {
    var s := front + [95] + group;
    if k > |front| {
      assert s[k] == group[k - |front| - 1];
    } else {
      assert s[k - 1] == front[k - 1];
      assert k < |front| ==> s[k] == front[k];
    }
  }

  lemma OneMoreGroup(front: seq<byte>, group: seq<byte>)
    requires AreMarks(front) && AllDigits(group)
    ensures AreMarks(front + [95] + group)
    ensures WithoutUnderscores(front + [95] + group) == WithoutUnderscores(front) + group
  {
    Regroup(front, [95], group);
    assert ([95] + group)[1..] == group;
    DigitsAreKept(group);
    MarksJoin([95], group);
    WithoutUnderscoresAppend(front, [95] + group);
  }

  lemma {:induction false} GroupsAreDigits(groups: seq<seq<byte>>)
    requires AreGroups(groups)
    ensures IsPyDigits(Grouped(groups)) && WithoutUnderscores(Grouped(groups)) == Flat(groups)
  {
    var last := groups[|groups| - 1];
    if |groups| == 1 {
      DigitsAreKept(last);
      assert Flat(groups[..0]) + last == last;
    } else {
      GroupsAreDigits(groups[..|groups| - 1]);
      GroupsJoin(Grouped(groups[..|groups| - 1]), last);
      OneMoreGroup(Grouped(groups[..|groups| - 1]), last);
    }
  }

  function Signed(sign: seq<byte>, n: int): int {
    if sign == [45] then -n else n
  }

  lemma IntOfStripped(text: seq<byte>, sign: seq<byte>, digits: seq<byte>)
    requires sign == [] || sign == [43] || sign == [45]
    requires Strip(text) == sign + digits && |digits| > 0 && digits[0] != 43 && digits[0] != 45
    ensures PyInt(text) == if IsPyDigits(digits) then Some(Signed(sign, DigitsValue(WithoutUnderscores(digits)))) else None
  {
    var s := Strip(text);
    if sign == [] {
      assert s == digits;
    } else {
      assert s[0] == sign[0] && s[1..] == digits;
    }
  }

  /** A number may stand between spaces, carry a sign, and have single underscores between its digits. */
  lemma GroupedIntIsRead(lead: seq<byte>, sign: seq<byte>, groups: seq<seq<byte>>, trail: seq<byte>)
    requires AreSpaces(lead) && AreSpaces(trail) && AreGroups(groups) && (sign == [] || sign == [43] || sign == [45])
    ensures AllDigits(Flat(groups))
    ensures PyInt(lead + (sign + Grouped(groups) + trail))
         == Some(Signed(sign, DigitsValue(Flat(groups))))
  {
    var s := sign + Grouped(groups);
    GroupsAreDigits(groups);
    assert s[|s| - 1] == Grouped(groups)[|Grouped(groups)| - 1];
    InkIsStripped(lead, s, trail);
    IntOfStripped(lead + (s + trail), sign, Grouped(groups));
  }

  /** Anything else between the spaces is no number: another character, an underscore beside none or two digits. */
  lemma OtherTextIsNoInt(lead: seq<byte>, sign: seq<byte>, s: seq<byte>, trail: seq<byte>, k: nat)
    requires AreSpaces(lead) && AreSpaces(trail) && (sign == [] || sign == [43] || sign == [45])
    requires k < |s| && s[0] != 43 && s[0] != 45 && !IsPySpace((sign + s)[0]) && !IsPySpace(s[|s| - 1])
    requires || (!(48 <= s[k] <= 57) && s[k] != 95)
             || (s[k] == 95 && (k == 0 || k == |s| - 1 || s[k - 1] == 95))
    ensures PyInt(lead + (sign + s + trail)) == None
  {
    NoDigits(s, k);
    TextIsNoInt(lead, sign, s, trail);
  }

  lemma NoDigits(s: seq<byte>, k: nat)
    requires k < |s|
    requires || (!(48 <= s[k] <= 57) && s[k] != 95)
             || (s[k] == 95 && (k == 0 || k == |s| - 1 || s[k - 1] == 95))
    ensures !IsPyDigits(s)
  {
  }

  lemma TextIsNoInt(lead: seq<byte>, sign: seq<byte>, s: seq<byte>, trail: seq<byte>)
    requires AreSpaces(lead) && AreSpaces(trail) && (sign == [] || sign == [43] || sign == [45])
    requires |s| > 0 && s[0] != 43 && s[0] != 45 && !IsPySpace((sign + s)[0]) && !IsPySpace(s[|s| - 1])
    requires !IsPyDigits(s)
    ensures PyInt(lead + (sign + s + trail)) == None
  {
    var text := sign + s;
    assert text[|text| - 1] == s[|s| - 1];
    InkIsStripped(lead, text, trail);
    IntOfStripped(lead + (text + trail), sign, s);
  }

  lemma {:induction false} SpacesAreStripped(s: seq<byte>)
    requires AreSpaces(s)
    ensures StripStart(s) == []
  {
    if s != [] {
      SpacesAreStripped(s[1..]);
    }
  }

  /** Neither is nothing at all, or a sign alone. */
  lemma NothingIsNoInt(lead: seq<byte>, sign: seq<byte>, trail: seq<byte>)
    requires AreSpaces(lead) && AreSpaces(trail) && (sign == [] || sign == [43] || sign == [45])
    ensures PyInt(lead + (sign + trail)) == None
  {
    if sign == [] {
      SpacesAreStripped(lead + ([] + trail));
    } else {
      InkIsStripped(lead, sign, trail);
    }
  }

  /** What was not framed keeps its error; of what was, bytes that are no JSON and values that are no objects are told apart. */
  lemma BodyIsJudged<J>(codec: Codec<J>, bytes: seq<byte>, e: FrameError)
    ensures MessageOf(codec, Err(e)) == Err(e)
    ensures codec.decode(bytes) == None ==> MessageOf(codec, Ok(bytes)) == Err(NotJson)
    ensures codec.decode(bytes).Some? && !codec.isObject(codec.decode(bytes).value) ==>
              MessageOf(codec, Ok(bytes)) == Err(NotAnObject)
    ensures codec.decode(bytes).Some? && codec.isObject(codec.decode(bytes).value) ==>
              MessageOf(codec, Ok(bytes)) == Ok(codec.decode(bytes).value)
  {
  }
}
