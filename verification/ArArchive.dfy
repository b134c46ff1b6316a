/** Reading `ar` archives: 60-byte headers, decimal sizes, data padded to even length. */
module ArArchive {
  import opened Common
  import opened Bytes
  import opened Decimal
  import opened Utf8

  const SLASH: byte := 47

  datatype Member = Member(name: seq<byte>, data: seq<byte>)

  datatype ArError =
    | TruncatedHeader
    | InvalidMagic
    | InvalidSize(text: seq<byte>)
    | TruncatedMember(name: seq<byte>)

  function Signature(): (s: seq<byte>)
    ensures |s| == 8
  {
    Ascii("!<arch>\n")
  }

  function HeaderMagic(): (s: seq<byte>)
    ensures |s| == 2
  {
    Ascii("`\n")
  }

  predicate IsArArchive(bytes: seq<byte>) {
    |bytes| >= 8 && bytes[..8] == Signature()
  }

  // --------------------------------------------------------------- header fields

  /** `from_utf8(..).unwrap_or("")`. */
  function TextOrEmpty(s: seq<byte>): seq<byte> {
    if IsUtf8(s) then s else []
  }

  function TrimSlashes(s: seq<byte>): (r: seq<byte>)
    ensures |r| <= |s|
  {
    if |s| > 0 && s[|s| - 1] == SLASH then TrimSlashes(s[..|s| - 1]) else s
  }

  function MemberName(field: seq<byte>): seq<byte> {
    TrimSlashes(Trim(TextOrEmpty(field)))
  }

  function SizeText(field: seq<byte>): seq<byte> {
    Trim(TextOrEmpty(field))
  }

  // ------------------------------------------------------------------- reading

  /** One member: its name, its data, and where the next header begins. */
  datatype Step = Step(member: Member, next: nat)

  /** The data of a member whose header has been read, up to `start`. */
  function TakeData(bytes: seq<byte>, start: nat, name: seq<byte>, size: nat): (r: Result<Step, ArError>)
    ensures r.Ok? ==> start <= |bytes| && start <= r.value.next
  {
    if start + size > |bytes| then Err(TruncatedMember(name))
    else Ok(Step(Member(name, bytes[start..start + size]), start + size + size % 2))
  }

  function ReadMember(bytes: seq<byte>, offset: nat): (r: Result<Step, ArError>)
    ensures r.Ok? ==> offset + 60 <= |bytes| && offset + 60 <= r.value.next
  {
    if offset + 60 > |bytes| then Err(TruncatedHeader)
    else
      var header := bytes[offset..offset + 60];
      if header[58..60] != HeaderMagic() then Err(InvalidMagic)
      else
        var name := MemberName(header[0..16]);
        match ParseUsize(SizeText(header[48..58]))
        case None => Err(InvalidSize(SizeText(header[48..58])))
        case Some(size) =>
          TakeData(bytes, offset + 60, name, size)
  }

  /** The nameless members are read but not kept. */
  function Kept(m: Member): seq<Member> {
    if m.name != [] then [m] else []
  }

  function ReadMembers(bytes: seq<byte>, offset: nat): Result<seq<Member>, ArError>
    decreases |bytes| - offset
  {
    if offset >= |bytes| then Ok([])
    else
      match ReadMember(bytes, offset)
      case Err(e) => Err(e)
      case Ok(step) =>
        match ReadMembers(bytes, step.next)
        case Err(e) => Err(e)
        case Ok(rest) => Ok(Kept(step.member) + rest)
  }

  function Prepend(members: seq<Member>, r: Result<seq<Member>, ArError>): Result<seq<Member>, ArError> {
    match r
    case Err(e) => Err(e)
    case Ok(rest) => Ok(members + rest)
  }

  lemma PrependNothing(r: Result<seq<Member>, ArError>)
    ensures Prepend([], r) == r
  {
    if r.Ok? {
      assert [] + r.value == r.value;
    }
  }

  lemma PrependPrepend(a: seq<Member>, b: seq<Member>, r: Result<seq<Member>, ArError>)
    ensures Prepend(a, Prepend(b, r)) == Prepend(a + b, r)
  {
    if r.Ok? {
      assert a + (b + r.value) == a + b + r.value;
    }
  }

  /** Moving past one member: what was kept, and what is still to be read. */
  lemma MemberIsTaken(bytes: seq<byte>, offset: nat, members: seq<Member>)
    requires offset < |bytes|
    ensures var r := ReadMember(bytes, offset);
            Prepend(members, ReadMembers(bytes, offset)) ==
            if r.Ok? then Prepend(members + Kept(r.value.member), ReadMembers(bytes, r.value.next)) else Err(r.error)
  {
    var r := ReadMember(bytes, offset);
    if r.Ok? {
      PrependPrepend(members, Kept(r.value.member), ReadMembers(bytes, r.value.next));
    }
  }

  method ParseArArchive(bytes: seq<byte>) returns (r: Result<seq<Member>, ArError>)
    ensures r == if IsArArchive(bytes) then ReadMembers(bytes, 8) else Ok([])
  {
    if !IsArArchive(bytes) {
      return Ok([]);
    }
    var members: seq<Member>, offset := [], 8;
    PrependNothing(ReadMembers(bytes, 8));
    while offset < |bytes|
      invariant Prepend(members, ReadMembers(bytes, offset)) == ReadMembers(bytes, 8)
      decreases |bytes| - offset
    {
      MemberIsTaken(bytes, offset, members);
      var step := ParseMember(bytes, offset);
      if step.Err? {
        return Err(step.error);
      }
      offset := step.value.next;
      if step.value.member.name != [] {
        members := members + [step.value.member];
      }
      assert members == members + [];
    }
    assert members + [] == members;
    return Ok(members);
  }

  /** The body of the source's loop, up to the point where the member is kept or dropped. */
  method ParseMember(bytes: seq<byte>, at: nat) returns (r: Result<Step, ArError>)
    requires at < |bytes|
    ensures r == ReadMember(bytes, at)
  {
    var offset := at;
    if offset + 60 > |bytes| {
      return Err(TruncatedHeader);
    }
    var header := bytes[offset..offset + 60];
    offset := offset + 60;
    if header[58..60] != HeaderMagic() {
      return Err(InvalidMagic);
    }
    var name := MemberName(header[0..16]);
    var parsed := ParseUsize(SizeText(header[48..58]));
    if parsed == None {
      return Err(InvalidSize(SizeText(header[48..58])));
    }
    var size := parsed.value;
    if offset + size > |bytes| {
      return Err(TruncatedMember(name));
    }
    var data := bytes[offset..offset + size];
    offset := offset + size;
    if size % 2 != 0 {
      offset := offset + 1;
    }
    return Ok(Step(Member(name, data), offset));
  }

  // ------------------------------------------------------ what any archive yields

  /** The names and data of `members` lie in `bytes` in order, from `offset` on, sixty bytes and more apart. */
  ghost predicate LiesIn(bytes: seq<byte>, offset: nat, members: seq<Member>)
    decreases |members|
  {
    members == [] ||
    exists at | offset <= at ::
      IsMemberAt(bytes, at, members[0]) && LiesIn(bytes, at + 60 + |members[0].data|, members[1..])
  }

  predicate IsMemberAt(bytes: seq<byte>, at: nat, m: Member) {
    && at + 60 + |m.data| <= |bytes|
    && MemberName(bytes[at..at + 16]) == m.name
    && bytes[at + 60..at + 60 + |m.data|] == m.data
  }

  /** A member read comes from the data behind its header. */
  lemma ReadMemberTakesData(bytes: seq<byte>, offset: nat) returns (size: nat)
    requires ReadMember(bytes, offset).Ok?
    ensures offset + 60 <= |bytes|
    ensures ReadMember(bytes, offset) == TakeData(bytes, offset + 60, MemberName(bytes[offset..offset + 60][0..16]), size)
  {
    size := ParseUsize(SizeText(bytes[offset..offset + 60][48..58])).value;
  }

  lemma DataIsThere(bytes: seq<byte>, at: nat, name: seq<byte>, size: nat)
    requires at + 60 <= |bytes| && TakeData(bytes, at + 60, name, size).Ok? && MemberName(bytes[at..at + 16]) == name
    ensures var step := TakeData(bytes, at + 60, name, size).value;
            IsMemberAt(bytes, at, step.member) && at + 60 + |step.member.data| <= step.next
  {
  }

  lemma ReadMemberIsThere(bytes: seq<byte>, offset: nat)
    requires ReadMember(bytes, offset).Ok?
    ensures var step := ReadMember(bytes, offset).value;
            IsMemberAt(bytes, offset, step.member) && offset + 60 + |step.member.data| <= step.next
  {
    var size := ReadMemberTakesData(bytes, offset);
    assert bytes[offset..offset + 60][0..16] == bytes[offset..offset + 16];
    DataIsThere(bytes, offset, MemberName(bytes[offset..offset + 16]), size);
  }

  lemma LiesInEarlier(bytes: seq<byte>, from: nat, offset: nat, members: seq<Member>)
    requires from <= offset && LiesIn(bytes, offset, members)
    ensures LiesIn(bytes, from, members)
  {
  }

  lemma LiesInStep(bytes: seq<byte>, at: nat, m: Member, rest: seq<Member>)
    requires IsMemberAt(bytes, at, m) && LiesIn(bytes, at + 60 + |m.data|, rest)
    ensures LiesIn(bytes, at, [m] + rest)
  {
    var members := [m] + rest;
    assert members[1..] == rest;
    assert IsMemberAt(bytes, at, members[0]);
  }

  /** Whatever the bytes, what is read without error is disjoint pieces of them in file order. */
  lemma {:induction false} MembersAreDisjointSlices(bytes: seq<byte>, offset: nat)
    requires ReadMembers(bytes, offset).Ok?
    ensures LiesIn(bytes, offset, ReadMembers(bytes, offset).value)
    decreases |bytes| - offset
  {
    if offset < |bytes| {
      var step := ReadMember(bytes, offset).value;
      var after := offset + 60 + |step.member.data|;
      var rest := ReadMembers(bytes, step.next).value;
      ReadMemberIsThere(bytes, offset);
      MembersAreDisjointSlices(bytes, step.next);
      LiesInEarlier(bytes, after, step.next, rest);
      if step.member.name == [] {
        assert [] + rest == rest;
        LiesInEarlier(bytes, offset, after, rest);
      } else {
        LiesInStep(bytes, offset, step.member, rest);
      }
    }
  }

  // --------------------------------------------------------------- round trip

  function Spaces(n: nat): (s: seq<byte>)
    ensures |s| == n && forall k | 0 <= k < n :: s[k] == 32
  {
    seq(n, _ => 32)
  }

  function Slashes(n: nat): (s: seq<byte>)
    ensures |s| == n && forall k | 0 <= k < n :: s[k] == 47
  {
    seq(n, _ => 47)
  }

  /**
   What else a member stores: spaces in front of its name and of its size, slashes behind the name, dates, owners
   and mode (32 bytes, unread), and the byte that pads odd data.
   */
  datatype Extra = Extra(indent: nat, slashes: nat, sizeIndent: nat, unread: seq<byte>, pad: byte)

  /** A name to store: its end is no slash, its start no whitespace, and its end none unless slashes follow. */
  predicate IsName(name: seq<byte>, indent: nat, slashes: nat) {
    && indent + |name| + slashes <= 16 && IsUtf8(name)
    && (|name| > 0 ==> SpaceAtStart(name) == 0 && name[|name| - 1] != 47 && (slashes == 0 ==> SpaceAtEnd(name) == 0))
  }

  predicate IsMember(m: Member, x: Extra) {
    IsName(m.name, x.indent, x.slashes) && x.sizeIndent + |Print(|m.data|)| <= 10 && |x.unread| == 32
  }

  function PadTo(s: seq<byte>, width: nat): seq<byte> {
    s + Spaces(if |s| < width then width - |s| else 0)
  }

  function NameField(name: seq<byte>, indent: nat, slashes: nat): seq<byte> {
    PadTo(Spaces(indent) + (name + Slashes(slashes)), 16)
  }

  function SizeField(size: nat, indent: nat): seq<byte> {
    PadTo(Spaces(indent) + Print(size), 10)
  }

  function Header(m: Member, x: Extra): seq<byte> {
    NameField(m.name, x.indent, x.slashes) + x.unread + SizeField(|m.data|, x.sizeIndent) + [96, 10]
  }

  function Padding(m: Member, x: Extra): seq<byte> {
    if |m.data| % 2 == 0 then [] else [x.pad]
  }

  /** What an archive gives: its members in order, the nameless left out (the symbol table `/`, the long names `//`). */
  function Named(ms: seq<Member>): seq<Member> {
    if ms == [] then [] else if |ms[0].name| == 0 then Named(ms[1..]) else [ms[0]] + Named(ms[1..])
  }

  function Block(m: Member, x: Extra): seq<byte> {
    Header(m, x) + m.data + Padding(m, x)
  }

  /** The members one behind the other. */
  function Body(ms: seq<Member>, xs: seq<Extra>): seq<byte>
    requires |ms| == |xs|
  {
    if ms == [] then [] else Block(ms[0], xs[0]) + Body(ms[1..], xs[1..])
  }

  lemma {:induction false} SlashesAreTrimmed(name: seq<byte>, n: nat)
    requires |name| > 0 ==> name[|name| - 1] != 47
    ensures TrimSlashes(name + Slashes(n)) == name
  {
    var s := name + Slashes(n);
    if n == 0 {
      assert s == name;
    } else {
      assert s[..|s| - 1] == name + Slashes(n - 1);
      SlashesAreTrimmed(name, n - 1);
    }
  }

  lemma {:induction false} SpacesAreTrimmed(n: nat)
    ensures Trim(Spaces(n)) == [] && TrimStart(Spaces(n)) == []
  {
    if n > 0 {
      SpacesAreTrimmed(n - 1);
      assert Spaces(n)[1..] == Spaces(n - 1);
    }
  }

  lemma AsciiEnd(front: seq<byte>, b: byte)
    requires b < 128 && !IsWhiteSpace(b)
    ensures SpaceAtEnd(front + [b]) == 0
  {
    var s := front + [b];
    assert s[|s| - 1..] == [b];
  }

  lemma {:induction false} SpacesBehindUtf8(s: seq<byte>, pad: seq<byte>)
    requires IsUtf8(s) && forall k | 0 <= k < |pad| :: pad[k] == 32
    ensures IsUtf8(s + pad)
  {
    if pad == [] {
      assert s + pad == s;
    } else {
      assert s + pad == s + ([pad[0]] + pad[1..]);
      Utf8ThenAscii(s, pad[0], pad[1..]);
    }
  }

  lemma {:induction false} SlashesBehindUtf8(s: seq<byte>, n: nat)
    requires IsUtf8(s)
    ensures IsUtf8(s + Slashes(n))
  {
    if n == 0 {
      assert s + Slashes(0) == s;
    } else {
      assert s + Slashes(n) == s + ([47] + Slashes(n - 1));
      Utf8ThenAscii(s, 47, Slashes(n - 1));
    }
  }

  lemma SlashedStart(name: seq<byte>, n: nat)
    requires n > 0 && (|name| > 0 ==> SpaceAtStart(name) == 0)
    ensures SpaceAtStart(name + Slashes(n)) == 0
  {
    assert name + Slashes(n) == name + ([47] + Slashes(n - 1));
    if |name| > 0 {
      FirstStops(name, 47, Slashes(n - 1));
    }
  }

  lemma SlashedEnd(name: seq<byte>, n: nat)
    requires n > 0
    ensures SpaceAtEnd(name + Slashes(n)) == 0
  {
    assert name + Slashes(n) == name + Slashes(n - 1) + [47];
    AsciiEnd(name + Slashes(n - 1), 47);
  }

  /** A name with its slashes begins and ends without whitespace. */
  lemma SlashedName(name: seq<byte>, slashes: nat)
    requires IsName(name, 0, slashes) && |name| + slashes > 0
    ensures IsTrimmed(name + Slashes(slashes)) && IsUtf8(name + Slashes(slashes))
  {
    SlashesBehindUtf8(name, slashes);
    if slashes == 0 {
      assert name + Slashes(0) == name;
    } else {
      SlashedStart(name, slashes);
      SlashedEnd(name, slashes);
    }
  }

  lemma {:induction false} IndentIsTrimmed(n: nat, s: seq<byte>)
    ensures TrimStart(Spaces(n) + s) == TrimStart(s)
  {
    if n == 0 {
      assert Spaces(0) + s == s;
    } else {
      assert (Spaces(n) + s)[1..] == Spaces(n - 1) + s;
      IndentIsTrimmed(n - 1, s);
    }
  }

  lemma {:induction false} IndentIsUtf8(n: nat, s: seq<byte>)
    requires IsUtf8(s)
    ensures IsUtf8(Spaces(n) + s)
  {
    if n == 0 {
      assert Spaces(0) + s == s;
    } else {
      assert (Spaces(n) + s)[1..] == Spaces(n - 1) + s;
      IndentIsUtf8(n - 1, s);
    }
  }

  /** A field gives its text without the spaces around it. */
  lemma FieldIsTrimmed(indent: nat, text: seq<byte>, width: nat)
    requires |text| > 0 && IsTrimmed(text) && IsUtf8(text) && indent + |text| <= width
    ensures SizeText(PadTo(Spaces(indent) + text, width)) == text
  {
    var pad := Spaces(width - (indent + |text|));
    assert PadTo(Spaces(indent) + text, width) == Spaces(indent) + (text + pad) by { Regroup(Spaces(indent), text, pad); }
    SpacesBehindUtf8(text, pad);
    IndentIsUtf8(indent, text + pad);
    IndentIsTrimmed(indent, text + pad);
    TrimmedBack(text, pad);
  }

  lemma NameFieldIsRead(name: seq<byte>, indent: nat, slashes: nat)
    requires IsName(name, indent, slashes)
    ensures MemberName(NameField(name, indent, slashes)) == name
  {
    var raw := name + Slashes(slashes);
    if |raw| == 0 {
      assert NameField(name, indent, slashes) == Spaces(16) && name == [];
      AsciiIsUtf8(Spaces(16));
      SpacesAreTrimmed(16);
    } else {
      SlashedName(name, slashes);
      FieldIsTrimmed(indent, raw, 16);
      SlashesAreTrimmed(name, slashes);
    }
  }

  lemma SizeFieldIsRead(size: nat, indent: nat)
    requires indent + |Print(size)| <= 10
    ensures ParseUsize(SizeText(SizeField(size, indent))) == Some(size)
  {
    AsciiIsUtf8(Print(size));
    AsciiEndsAreTrimmed(Print(size));
    FieldIsTrimmed(indent, Print(size), 10);
    SizeIsWord(size);
    ParsedBack(size);
  }

  /** Every size below ten thousand million can be stored. */
  lemma SizesFit(size: nat)
    requires size < 10000000000
    ensures |Print(size)| <= 10
  {
    assert Pow10(5) == 100000;
    assert Pow10(10) == 10000000000;
    PrintedLength(size, 10);
  }

  lemma SizeIsWord(size: nat)
    requires |Print(size)| <= 10
    ensures size < U64
  {
    PrintedValue(size);
    DigitsBound(Print(size));
    Pow10Grows(|Print(size)|, 10);
    assert Pow10(10) == 10000000000 by { assert Pow10(5) == 100000; }
  }

  lemma HeaderFields(m: Member, x: Extra)
    requires x.indent + |m.name| + x.slashes <= 16 && x.sizeIndent + |Print(|m.data|)| <= 10 && |x.unread| == 32
    ensures var h := Header(m, x);
            && |h| == 60 && h[0..16] == NameField(m.name, x.indent, x.slashes)
            && h[48..58] == SizeField(|m.data|, x.sizeIndent) && h[58..60] == [96, 10]
  {
  }

  lemma HeaderIsRead(bytes: seq<byte>, offset: nat, header: seq<byte>, name: seq<byte>, size: nat, start: nat)
    requires |header| == 60 && start == offset + |header| && HoldsAt(bytes, offset, header)
    requires header[58..60] == [96, 10] && MemberName(header[0..16]) == name
    requires ParseUsize(SizeText(header[48..58])) == Some(size)
    ensures ReadMember(bytes, offset) == TakeData(bytes, start, name, size)
  {
    SignatureBytes();
  }

  lemma DataIsTaken(bytes: seq<byte>, start: nat, m: Member, next: nat)
    requires HoldsAt(bytes, start, m.data) && next == start + |m.data| + |m.data| % 2
    ensures TakeData(bytes, start, m.name, |m.data|) == Ok(Step(m, next))
  {
  }

  lemma FieldsAreRead(header: seq<byte>, m: Member, x: Extra)
    requires IsMember(m, x) && |header| == 60
    requires header[0..16] == NameField(m.name, x.indent, x.slashes) && header[48..58] == SizeField(|m.data|, x.sizeIndent)
    ensures MemberName(header[0..16]) == m.name && ParseUsize(SizeText(header[48..58])) == Some(|m.data|)
  {
    NameFieldIsRead(m.name, x.indent, x.slashes);
    SizeFieldIsRead(|m.data|, x.sizeIndent);
  }

  lemma MemberWithHeaderIsRead(bytes: seq<byte>, offset: nat, header: seq<byte>, m: Member, x: Extra, next: nat)
    requires IsMember(m, x) && |header| == 60
    requires header[0..16] == NameField(m.name, x.indent, x.slashes) && header[48..58] == SizeField(|m.data|, x.sizeIndent)
    requires header[58..60] == [96, 10] && HoldsAt(bytes, offset, header + m.data)
    requires next == offset + 60 + |m.data| + |m.data| % 2
    ensures ReadMember(bytes, offset) == Ok(Step(m, next))
  {
    FieldsAreRead(header, m, x);
    HoldsSplit(bytes, offset, header, m.data);
    var start := offset + |header|;
    HeaderIsRead(bytes, offset, header, m.name, |m.data|, start);
    DataIsTaken(bytes, start, m, next);
  }

  lemma MemberIsRead(bytes: seq<byte>, offset: nat, m: Member, x: Extra, next: nat)
    requires IsMember(m, x) && HoldsAt(bytes, offset, Header(m, x) + m.data)
    requires next == offset + 60 + |m.data| + |m.data| % 2
    ensures ReadMember(bytes, offset) == Ok(Step(m, next))
  {
    HeaderFields(m, x);
    MemberWithHeaderIsRead(bytes, offset, Header(m, x), m, x, next);
  }

  lemma BlockLength(m: Member, x: Extra)
    requires IsMember(m, x)
    ensures |Header(m, x)| == 60 && |Block(m, x)| == 60 + |m.data| + |m.data| % 2
  {
    HeaderFields(m, x);
  }

  lemma BlockStands(bytes: seq<byte>, offset: nat, m: Member, x: Extra, rest: seq<byte>, next: nat)
    requires IsMember(m, x) && offset <= |bytes| && bytes[offset..] == Block(m, x) + rest
    requires next == offset + 60 + |m.data| + |m.data| % 2
    ensures HoldsAt(bytes, offset, Header(m, x) + m.data)
    ensures offset < |bytes| && next <= |bytes| && bytes[next..] == rest
  {
    BlockLength(m, x);
    RestSplit(bytes, offset, Block(m, x), rest);
    HoldsSplit(bytes, offset, Header(m, x) + m.data, Padding(m, x));
  }

  /** A block in front of more is read as its member, and the rest stands behind it. */
  lemma BlockIsRead(bytes: seq<byte>, offset: nat, m: Member, x: Extra, rest: seq<byte>, next: nat)
    requires IsMember(m, x) && offset <= |bytes| && bytes[offset..] == Block(m, x) + rest
    requires next == offset + 60 + |m.data| + |m.data| % 2
    ensures offset < |bytes| && next <= |bytes| && bytes[next..] == rest
    ensures ReadMember(bytes, offset) == Ok(Step(m, next))
  {
    BlockStands(bytes, offset, m, x, rest, next);
    MemberIsRead(bytes, offset, m, x, next);
  }

  lemma OneMemberFirst(bytes: seq<byte>, offset: nat, step: Step)
    requires offset < |bytes| && ReadMember(bytes, offset) == Ok(step)
    ensures ReadMembers(bytes, offset) == Prepend(Kept(step.member), ReadMembers(bytes, step.next))
  {
  }

  lemma NamedFirst(ms: seq<Member>)
    requires ms != []
    ensures Named(ms) == Kept(ms[0]) + Named(ms[1..])
  {
    assert [] + Named(ms[1..]) == Named(ms[1..]);
  }

  /** One member and what is read behind it. */
  lemma MemberAndRest(bytes: seq<byte>, offset: nat, ms: seq<Member>, next: nat, r: Result<seq<Member>, ArError>)
    requires offset < |bytes| && ms != [] && ReadMember(bytes, offset) == Ok(Step(ms[0], next))
    requires ReadMembers(bytes, next) == Prepend(Named(ms[1..]), r)
    ensures ReadMembers(bytes, offset) == Prepend(Named(ms), r)
  {
    OneMemberFirst(bytes, offset, Step(ms[0], next));
    PrependPrepend(Kept(ms[0]), Named(ms[1..]), r);
    NamedFirst(ms);
  }

  ghost predicate AreMembers(ms: seq<Member>, xs: seq<Extra>) {
    |ms| == |xs| && (ms == [] || (IsMember(ms[0], xs[0]) && AreMembers(ms[1..], xs[1..])))
  }

  /** Behind any members stands what the reading of the archive ends with. */
  lemma {:induction false} BodyIsRead(bytes: seq<byte>, offset: nat, ms: seq<Member>, xs: seq<Extra>, end: nat)
    requires AreMembers(ms, xs) && offset <= |bytes| && end <= |bytes|
    requires bytes[offset..] == Body(ms, xs) + bytes[end..]
    ensures ReadMembers(bytes, offset) == Prepend(Named(ms), ReadMembers(bytes, end))
    decreases |ms|
  {
    if ms == [] {
      assert |bytes[offset..]| == |bytes[end..]|;
      PrependNothing(ReadMembers(bytes, end));
    } else {
      var m, more := ms[0], Body(ms[1..], xs[1..]);
      var next := offset + 60 + |m.data| + |m.data| % 2;
      Regroup(Block(m, xs[0]), more, bytes[end..]);
      BlockIsRead(bytes, offset, m, xs[0], more + bytes[end..], next);
      BodyIsRead(bytes, next, ms[1..], xs[1..], end);
      MemberAndRest(bytes, offset, ms, next, ReadMembers(bytes, end));
    }
  }

  /** An archive of `ms` with anything behind it. */
  function Archive(ms: seq<Member>, xs: seq<Extra>, tail: seq<byte>): seq<byte>
    requires |ms| == |xs|
  {
    [33, 60, 97, 114, 99, 104, 62, 10] + (Body(ms, xs) + tail)
  }

  lemma SignatureBytes()
    ensures Signature() == [33, 60, 97, 114, 99, 104, 62, 10] && HeaderMagic() == [96, 10]
  {
  }

  lemma ArchiveIsRead(bytes: seq<byte>, ms: seq<Member>, xs: seq<Extra>, tail: seq<byte>, end: nat)
    requires AreMembers(ms, xs) && bytes == Archive(ms, xs, tail) && end + |tail| == |bytes|
    ensures IsArArchive(bytes) && bytes[end..] == tail
    ensures ReadMembers(bytes, 8) == Prepend(Named(ms), ReadMembers(bytes, end))
  {
    SignatureBytes();
    assert bytes[..8] == [33, 60, 97, 114, 99, 104, 62, 10];
    assert bytes[8..] == Body(ms, xs) + tail;
    RestSplit(bytes, 8, Body(ms, xs), tail);
    BodyIsRead(bytes, 8, ms, xs, end);
  }

  /** Every list of members is read back from the archive that holds it, the nameless left out. */
  lemma ArchiveRoundTrip(ms: seq<Member>, xs: seq<Extra>)
    requires AreMembers(ms, xs)
    ensures IsArArchive(Archive(ms, xs, [])) && ReadMembers(Archive(ms, xs, []), 8) == Ok(Named(ms))
  {
    var bytes := Archive(ms, xs, []);
    ArchiveIsRead(bytes, ms, xs, [], |bytes|);
    assert Named(ms) + [] == Named(ms);
  }

  lemma OnlyMember(bytes: seq<byte>, end: nat, m: Member, next: nat)
    requires end < |bytes| <= next && ReadMember(bytes, end) == Ok(Step(m, next))
    ensures ReadMembers(bytes, end) == Ok(Named([m]))
  {
    assert [m][1..] == [] && Kept(m) + [] == Kept(m);
    if |m.name| > 0 {
      assert [m] + [] == [m];
    }
  }

  lemma UnpaddedStands(bytes: seq<byte>, end: nat, m: Member, x: Extra)
    requires IsMember(m, x) && end <= |bytes| && bytes[end..] == Header(m, x) + m.data
    ensures HoldsAt(bytes, end, Header(m, x) + m.data) && |bytes| == end + 60 + |m.data|
  {
    BlockLength(m, x);
    RestSplit(bytes, end, Header(m, x) + m.data, []);
    assert |bytes[end..]| == |Header(m, x) + m.data|;
  }

  lemma LastMemberIsRead(bytes: seq<byte>, end: nat, m: Member, x: Extra, next: nat)
    requires IsMember(m, x) && end <= |bytes| && bytes[end..] == Header(m, x) + m.data
    requires next == end + 60 + |m.data| + |m.data| % 2
    ensures ReadMembers(bytes, end) == Ok(Named([m]))
  {
    UnpaddedStands(bytes, end, m, x);
    MemberIsRead(bytes, end, m, x, next);
    OnlyMember(bytes, end, m, next);
  }

  /** The byte that pads the last member may be missing. */
  lemma LastPadMayBeMissing(ms: seq<Member>, xs: seq<Extra>, m: Member, x: Extra)
    requires AreMembers(ms, xs) && IsMember(m, x)
    ensures ReadMembers(Archive(ms, xs, Header(m, x) + m.data), 8) == Ok(Named(ms) + Named([m]))
  {
    var bytes, tail := Archive(ms, xs, Header(m, x) + m.data), Header(m, x) + m.data;
    ArchiveIsRead(bytes, ms, xs, tail, |bytes| - |tail|);
    var end := |bytes| - |tail|;
    LastMemberIsRead(bytes, end, m, x, end + 60 + |m.data| + |m.data| % 2);
  }

  // -------------------------------------------------------------- broken archives

  lemma FailureIsPassedOn(ms: seq<Member>, xs: seq<Extra>, tail: seq<byte>) returns (bytes: seq<byte>, end: nat)
    requires AreMembers(ms, xs) && tail != []
    ensures bytes == Archive(ms, xs, tail) && end < |bytes| && bytes[end..] == tail
    ensures ReadMember(bytes, end).Err? ==> ReadMembers(bytes, 8) == Err(ReadMember(bytes, end).error)
  {
    bytes := Archive(ms, xs, tail);
    end := |bytes| - |tail|;
    ArchiveIsRead(bytes, ms, xs, tail, end);
  }

  lemma BrokenHeaderIsRefused(bytes: seq<byte>, at: nat, tail: seq<byte>)
    requires at < |bytes| && bytes[at..] == tail
    ensures |tail| < 60 ==> ReadMember(bytes, at) == Err(TruncatedHeader)
    ensures |tail| >= 60 && tail[58..60] != [96, 10] ==> ReadMember(bytes, at) == Err(InvalidMagic)
  {
    SignatureBytes();
    assert |tail| == |bytes| - at;
    if |tail| >= 60 {
      assert bytes[at..at + 60] == tail[..60];
      assert tail[..60][58..60] == tail[58..60];
    }
  }

  /** A header cut short, or one without its closing magic, fails the whole archive, whatever stands in front. */
  lemma BrokenHeaderFails(ms: seq<Member>, xs: seq<Extra>, tail: seq<byte>)
    requires AreMembers(ms, xs) && tail != []
    ensures |tail| < 60 ==> ReadMembers(Archive(ms, xs, tail), 8) == Err(TruncatedHeader)
    ensures |tail| >= 60 && tail[58..60] != [96, 10] ==> ReadMembers(Archive(ms, xs, tail), 8) == Err(InvalidMagic)
  {
    var bytes, end := FailureIsPassedOn(ms, xs, tail);
    BrokenHeaderIsRefused(bytes, end, tail);
  }

  lemma NotANumber(text: seq<byte>, k: nat)
    requires k < |text| && !(48 <= text[k] <= 57) && (k == 0 ==> text[k] != 43)
    ensures ParseUsize(text) == None
  {
    if text[0] == 43 {
      assert text[1..][k - 1] == text[k];
    }
  }

  lemma BadSizeIsRefused(bytes: seq<byte>, at: nat, header: seq<byte>, text: seq<byte>)
    requires HoldsAt(bytes, at, header) && |header| == 60 && header[58..60] == [96, 10]
    requires SizeText(header[48..58]) == text && ParseUsize(text) == None
    ensures ReadMember(bytes, at) == Err(InvalidSize(text))
  {
    SignatureBytes();
  }

  /** So does a size field without a number in it; the error gives its text. */
  lemma BadSizeFails(ms: seq<Member>, xs: seq<Extra>, header: seq<byte>, text: seq<byte>, data: seq<byte>, k: nat)
    requires AreMembers(ms, xs) && |header| == 60 && header[58..60] == [96, 10] && 0 < |text| <= 10
    requires header[48..58] == text + Spaces(10 - |text|) && IsTrimmed(text) && IsUtf8(text)
    requires k < |text| && !(48 <= text[k] <= 57) && (k == 0 ==> text[k] != 43)
    ensures ReadMembers(Archive(ms, xs, header + data), 8) == Err(InvalidSize(text))
  {
    var bytes, end := FailureIsPassedOn(ms, xs, header + data);
    RestSplit(bytes, end, header, data);
    SpacesBehindUtf8(text, Spaces(10 - |text|));
    TrimmedBack(text, Spaces(10 - |text|));
    NotANumber(text, k);
    BadSizeIsRefused(bytes, end, header, text);
  }

  /** So does an empty size field, or one that is no UTF-8. */
  lemma NoSizeFails(ms: seq<Member>, xs: seq<Extra>, header: seq<byte>, data: seq<byte>)
    requires AreMembers(ms, xs) && |header| == 60 && header[58..60] == [96, 10]
    requires header[48..58] == Spaces(10) || !IsUtf8(header[48..58])
    ensures ReadMembers(Archive(ms, xs, header + data), 8) == Err(InvalidSize([]))
  {
    var bytes, end := FailureIsPassedOn(ms, xs, header + data);
    RestSplit(bytes, end, header, data);
    SpacesAreTrimmed(10);
    BadSizeIsRefused(bytes, end, header, []);
  }

  lemma CutMemberIsRefused(bytes: seq<byte>, at: nat, header: seq<byte>, m: Member, x: Extra)
    requires IsMember(m, x) && header == Header(m, x) && HoldsAt(bytes, at, header) && |bytes| < at + |header| + |m.data|
    ensures ReadMember(bytes, at) == Err(TruncatedMember(m.name))
  {
    HeaderFields(m, x);
    FieldsAreRead(header, m, x);
    HeaderIsRead(bytes, at, header, m.name, |m.data|, at + |header|);
  }

  /** So does a member whose data are cut short; the error gives its name. */
  lemma CutMemberFails(ms: seq<Member>, xs: seq<Extra>, m: Member, x: Extra, part: seq<byte>)
    requires AreMembers(ms, xs) && IsMember(m, x) && |part| < |m.data|
    ensures ReadMembers(Archive(ms, xs, Header(m, x) + part), 8) == Err(TruncatedMember(m.name))
  {
    BlockLength(m, x);
    var bytes, end := FailureIsPassedOn(ms, xs, Header(m, x) + part);
    assert |bytes[end..]| == |bytes| - end;
    RestSplit(bytes, end, Header(m, x), part);
    CutMemberIsRefused(bytes, end, Header(m, x), m, x);
  }

  /** Bytes without the signature are no archive and give no members; with it they are read from behind it. */
  lemma SignatureDecides(bytes: seq<byte>)
    ensures IsArArchive(bytes) <==> [33, 60, 97, 114, 99, 104, 62, 10] <= bytes
  {
    SignatureBytes();
    if [33, 60, 97, 114, 99, 104, 62, 10] <= bytes {
      assert bytes[..8] == [33, 60, 97, 114, 99, 104, 62, 10];
    }
  }
}
