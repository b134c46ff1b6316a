/**
 Content-Length framing between the GNAT Studio plugin and its daemon. A body is any bytes; what JSON makes of
 it is left to a codec.
 */
module JsonRpc {
  import opened Common
  import opened Bytes
  import opened Decimal

  const NEWLINE: byte := 10
  const COLON: byte := 58
  const UNDERSCORE: byte := 95

  datatype FrameError = HeadersCutShort | NotAscii | BadLength | MissingLength | BodyCutShort | NotJson | NotAnObject

  // ---------------------------------------------------------------- the stream

  /** Just past the first newline from `pos` on, or the end. */
  function LineEnd(data: seq<byte>, pos: nat): (end: nat)
    requires pos <= |data|
    ensures pos <= end <= |data|
    ensures pos < |data| ==> pos < end
    decreases |data| - pos
  {
    if pos == |data| then pos else if data[pos] == NEWLINE then pos + 1 else LineEnd(data, pos + 1)
  }

  class Stream {
    const data: seq<byte>
    var pos: nat

    ghost predicate Valid()
      reads this
    {
      pos <= |data|
    }

    constructor (data: seq<byte>)
      ensures Valid() && this.data == data && pos == 0
    {
      this.data := data;
      pos := 0;
    }

    method ReadLine() returns (line: seq<byte>)
      requires Valid()
      modifies this
      ensures Valid() && pos == LineEnd(data, old(pos)) && line == data[old(pos)..pos]
    {
      var start := pos;
      while pos < |data|
        invariant start <= pos <= |data| && LineEnd(data, pos) == LineEnd(data, start)
        decreases |data| - pos
      {
        pos := pos + 1;
        if data[pos - 1] == NEWLINE {
          break;
        }
      }
      line := data[start..pos];
    }

    /** At most `n` bytes, or all that is left for -1. */
    method Read(n: int) returns (bs: seq<byte>)
      requires Valid() && n >= -1
      modifies this
      ensures Valid() && pos == (if n == -1 then |data| else Min(old(pos) + n, |data|)) && bs == data[old(pos)..pos]
    {
      var end := if n == -1 then |data| else Min(pos + n, |data|);
      bs := data[pos..end];
      pos := end;
    }
  }

  // -------------------------------------------------------------- header fields

  predicate IsBlank(line: seq<byte>) {
    line == [13, NEWLINE] || line == [NEWLINE]
  }

  predicate IsAscii(s: seq<byte>) {
    forall k | 0 <= k < |s| :: s[k] < 128
  }

  function LowerByte(b: byte): byte {
    if 65 <= b <= 90 then b + 32 else b
  }

  function LowerAscii(s: seq<byte>): (r: seq<byte>)
    ensures |r| == |s|
  {
    seq(|s|, k requires 0 <= k < |s| => LowerByte(s[k]))
  }

  /** The index of the first colon, or the length. */
  function ColonAt(s: seq<byte>): (i: nat)
    ensures i <= |s|
    ensures forall k | 0 <= k < i :: s[k] != COLON
    ensures i < |s| ==> s[i] == COLON
  {
    if s == [] || s[0] == COLON then 0 else 1 + ColonAt(s[1..])
  }

  function FieldName(line: seq<byte>): seq<byte> { line[..ColonAt(line)] }

  function FieldValue(line: seq<byte>): seq<byte> {
    if ColonAt(line) < |line| then line[ColonAt(line) + 1..] else []
  }

  function LengthName(): seq<byte> { Ascii("content-length") }

  /** Python's ASCII whitespace takes in the four separators below the space. */
  predicate IsPySpace(b: byte) { 9 <= b <= 13 || 28 <= b <= 32 }

  function StripStart(s: seq<byte>): (r: seq<byte>)
    ensures |r| <= |s|
  {
    if |s| > 0 && IsPySpace(s[0]) then StripStart(s[1..]) else s
  }

  function StripEnd(s: seq<byte>): (r: seq<byte>)
    ensures |r| <= |s|
  {
    if |s| > 0 && IsPySpace(s[|s| - 1]) then StripEnd(s[..|s| - 1]) else s
  }

  function Strip(s: seq<byte>): seq<byte> { StripEnd(StripStart(s)) }

  function WithoutUnderscores(s: seq<byte>): (r: seq<byte>)
    requires forall k | 0 <= k < |s| :: IsDigit(s[k]) || s[k] == UNDERSCORE
    ensures AllDigits(r)
  {
    if s == [] then [] else (if s[0] == UNDERSCORE then [] else [s[0]]) + WithoutUnderscores(s[1..])
  }

  /** Digits with single underscores between them. */
  predicate IsPyDigits(s: seq<byte>) {
    && |s| > 0 && IsDigit(s[0]) && IsDigit(s[|s| - 1])
    && (forall k | 0 <= k < |s| :: IsDigit(s[k]) || s[k] == UNDERSCORE)
    && (forall k | 0 < k < |s| :: s[k] == UNDERSCORE ==> s[k - 1] != UNDERSCORE)
  }

  /** `int(text.strip())`. */
  function PyInt(text: seq<byte>): Option<int> {
    var s := Strip(text);
    var signed := |s| > 0 && (s[0] == 43 || s[0] == 45);
    var digits := if signed then s[1..] else s;
    if !IsPyDigits(digits) then None
    else
      var n: int := DigitsValue(WithoutUnderscores(digits));
      Some(if signed && s[0] == 45 then -n else n)
  }

  // -------------------------------------------------------------- specification

  /** The header lines from `pos` on and the place behind the blank line. */
  datatype Headers = Headers(lines: seq<seq<byte>>, next: nat)

  function ReadHeaders(data: seq<byte>, pos: nat): (r: Option<Headers>)
    requires pos <= |data|
    ensures r.Some? ==> pos <= r.value.next <= |data|
    decreases |data| - pos
  {
    var end := LineEnd(data, pos);
    var line := data[pos..end];
    if line == [] then None
    else if IsBlank(line) then Some(Headers([], end))
    else
      match ReadHeaders(data, end)
      case None => None
      case Some(h) => Some(Headers([line] + h.lines, h.next))
  }

  /** The first content-length field decides; lines behind it are not even decoded. */
  function ContentLength(lines: seq<seq<byte>>): Result<int, FrameError> {
    if lines == [] then Err(MissingLength)
    else if !IsAscii(lines[0]) then Err(NotAscii)
    else if LowerAscii(FieldName(lines[0])) != LengthName() then ContentLength(lines[1..])
    else
      match PyInt(FieldValue(lines[0]))
      case None => Err(BadLength)
      case Some(n) => Ok(n)
  }

  /** The body of the frame at `pos`, and where the stream is left in every case. */
  datatype FrameOutcome = FrameOutcome(body: Result<seq<byte>, FrameError>, pos: nat)

  function Frame(data: seq<byte>, pos: nat): (r: FrameOutcome)
    requires pos <= |data|
    ensures pos <= r.pos <= |data|
  {
    match ReadHeaders(data, pos)
    case None => FrameOutcome(Err(HeadersCutShort), |data|)
    case Some(h) =>
      match ContentLength(h.lines)
      case Err(e) => FrameOutcome(Err(e), h.next)
      case Ok(n) =>
        if n < -1 then FrameOutcome(Err(BadLength), h.next)
        else if n == -1 || h.next + n > |data| then FrameOutcome(Err(BodyCutShort), |data|)
        else FrameOutcome(Ok(data[h.next..h.next + n]), h.next + n)
  }

  /** The headers once `lines` are read and `pos` is reached. */
  ghost function HeadersFrom(data: seq<byte>, lines: seq<seq<byte>>, pos: nat): Option<Headers>
    requires pos <= |data|
  {
    match ReadHeaders(data, pos)
    case None => None
    case Some(h) => Some(Headers(lines + h.lines, h.next))
  }

  method ReadHeaderLines(stream: Stream) returns (lines: Option<seq<seq<byte>>>)
    requires stream.Valid()
    modifies stream
    ensures stream.Valid()
    ensures match ReadHeaders(stream.data, old(stream.pos))
            case None => lines == None && stream.pos == |stream.data|
            case Some(h) => lines == Some(h.lines) && stream.pos == h.next
  {
    var headers: seq<seq<byte>> := [];
    ghost var start := stream.pos;
    assert forall ls: seq<seq<byte>> :: headers + ls == ls;
    while true
      invariant stream.Valid() && start <= stream.pos
      invariant HeadersFrom(stream.data, headers, stream.pos) == ReadHeaders(stream.data, start)
      decreases |stream.data| - stream.pos
    {
      ghost var before := headers;
      var line := stream.ReadLine();
      if line == [] {
        return None;
      }
      if IsBlank(line) {
        assert headers + [] == headers;
        return Some(headers);
      }
      headers := headers + [line];
      assert forall ls: seq<seq<byte>> :: before + ([line] + ls) == headers + ls;
    }
  }

  method FindContentLength(lines: seq<seq<byte>>) returns (r: Result<int, FrameError>)
    ensures r == ContentLength(lines)
  {
    for i := 0 to |lines|
      invariant ContentLength(lines[i..]) == ContentLength(lines)
    {
      assert lines[i..][1..] == lines[i + 1..];
      if !IsAscii(lines[i]) {
        return Err(NotAscii);
      }
      if LowerAscii(FieldName(lines[i])) == LengthName() {
        var n := PyInt(FieldValue(lines[i]));
        return if n == None then Err(BadLength) else Ok(n.value);
      }
    }
    assert lines[|lines|..] == [];
    return Err(MissingLength);
  }

  /** The part of `read_frame` in front of the decoding of the body. */
  method ReadBody(stream: Stream) returns (body: Result<seq<byte>, FrameError>)
    requires stream.Valid()
    modifies stream
    ensures stream.Valid() && FrameOutcome(body, stream.pos) == Frame(stream.data, old(stream.pos))
  {
    var lines := ReadHeaderLines(stream);
    if lines == None {
      return Err(HeadersCutShort);
    }
    var length := FindContentLength(lines.value);
    if length.Err? {
      return Err(length.error);
    }
    if length.value < -1 {
      return Err(BadLength);
    }
    var bytes := stream.Read(length.value);
    if |bytes| != length.value {
      return Err(BodyCutShort);
    }
    return Ok(bytes);
  }

  /** JSON over bytes: how a value is written, what bytes are read as, and which values are objects. */
  datatype Codec<!J> = Codec(encode: J -> seq<byte>, decode: seq<byte> -> Option<J>, isObject: J -> bool)

  /** What a body, or the failure to read one, is turned into. */
  function MessageOf<J>(codec: Codec<J>, body: Result<seq<byte>, FrameError>): Result<J, FrameError> {
    match body
    case Err(e) => Err(e)
    case Ok(bytes) =>
      match codec.decode(bytes)
      case None => Err(NotJson)
      case Some(value) => if codec.isObject(value) then Ok(value) else Err(NotAnObject)
  }

  method ReadFrame<J>(stream: Stream, codec: Codec<J>) returns (message: Result<J, FrameError>)
    requires stream.Valid()
    modifies stream
    ensures stream.Valid()
    ensures var outcome := Frame(stream.data, old(stream.pos));
            message == MessageOf(codec, outcome.body) && stream.pos == outcome.pos
  {
    var body := ReadBody(stream);
    if body.Err? {
      return Err(body.error);
    }
    var value := codec.decode(body.value);
    if value.None? {
      return Err(NotJson);
    }
    if !codec.isObject(value.value) {
      return Err(NotAnObject);
    }
    return Ok(value.value);
  }

  // --------------------------------------------------------------- round trip

  function HeaderLine(n: nat): seq<byte> {
    Ascii("Content-Length: ") + Print(n) + [13, NEWLINE]
  }

  function EncodeFrame(body: seq<byte>): seq<byte> {
    HeaderLine(|body|) + [13, NEWLINE] + body
  }

  function EncodeFrames(bodies: seq<seq<byte>>): seq<byte> {
    if bodies == [] then [] else EncodeFrame(bodies[0]) + EncodeFrames(bodies[1..])
  }

  /** The bodies read by one call each; the first error ends the list. */
  function ReadAll(data: seq<byte>, pos: nat, calls: nat): (r: (seq<Result<seq<byte>, FrameError>>, nat))
    requires pos <= |data|
    ensures pos <= r.1 <= |data|
    decreases calls
  {
    if calls == 0 then ([], pos)
    else
      var first := Frame(data, pos);
      var (rest, end) := ReadAll(data, first.pos, calls - 1);
      ([first.body] + rest, end)
  }

  lemma {:induction false} LineEndIs(data: seq<byte>, pos: nat, line: seq<byte>)
    requires |line| > 0 && line[|line| - 1] == NEWLINE && HoldsAt(data, pos, line)
    requires forall k | 0 <= k < |line| - 1 :: line[k] != NEWLINE
    ensures LineEnd(data, pos) == pos + |line|
    decreases |line|
  {
    assert data[pos] == data[pos..pos + |line|][0];
    if |line| > 1 {
      assert data[pos + 1..pos + |line|] == data[pos..pos + |line|][1..];
      LineEndIs(data, pos + 1, line[1..]);
    }
  }

  lemma {:induction false} DigitsAreKept(s: seq<byte>)
    requires AllDigits(s)
    ensures WithoutUnderscores(s) == s
  {
    if s != [] {
      DigitsAreKept(s[1..]);
    }
  }

  lemma OneSpaceIsStripped(s: seq<byte>)
    requires |s| > 0 && !IsPySpace(s[0])
    ensures StripStart([32] + s) == s
  {
    assert ([32] + s)[1..] == s;
  }

  lemma LastSpaceIsStripped(s: seq<byte>, b: byte)
    requires IsPySpace(b)
    ensures StripEnd(s + [b]) == StripEnd(s)
  {
    assert (s + [b])[..|s|] == s;
  }

  lemma LineEndIsStripped(digits: seq<byte>)
    requires |digits| > 0 && AllDigits(digits)
    ensures Strip([32] + digits + [13, NEWLINE]) == digits
  {
    assert [32] + digits + [13, NEWLINE] == [32] + (digits + [13] + [NEWLINE]);
    OneSpaceIsStripped(digits + [13] + [NEWLINE]);
    LastSpaceIsStripped(digits + [13], NEWLINE);
    LastSpaceIsStripped(digits, 13);
  }

  lemma PlainDigitsAreRead(text: seq<byte>, digits: seq<byte>)
    requires |digits| > 0 && AllDigits(digits) && Strip(text) == digits
    ensures PyInt(text) == Some(DigitsValue(digits))
  {
    DigitsAreKept(digits);
  }

  lemma PrintedIntIsRead(n: nat)
    ensures PyInt([32] + Print(n) + [13, NEWLINE]) == Some(n)
  {
    LineEndIsStripped(Print(n));
    PlainDigitsAreRead([32] + Print(n) + [13, NEWLINE], Print(n));
    PrintedValue(n);
  }

  lemma {:induction false} ColonIs(s: seq<byte>, i: nat)
    requires i < |s| && s[i] == COLON && forall k | 0 <= k < i :: s[k] != COLON
    ensures ColonAt(s) == i
  {
    if i > 0 {
      ColonIs(s[1..], i - 1);
    }
  }

  function Prefix(): (p: seq<byte>)
    ensures p == Ascii("Content-Length: ")
  {
    [67, 111, 110, 116, 101, 110, 116, 45, 76, 101, 110, 103, 116, 104, 58, 32]
  }

  lemma PrefixFields()
    ensures LowerAscii(Prefix()[..14]) == LengthName() && IsAscii(Prefix())
  {
  }

  /** A field name, a colon and a space, then the value. */
  lemma FieldsOfLine(prefix: seq<byte>, value: seq<byte>)
    requires |prefix| == 16 && prefix[14] == COLON && prefix[15] == 32 && forall k | 0 <= k < 14 :: prefix[k] != COLON
    ensures FieldName(prefix + value) == prefix[..14] && FieldValue(prefix + value) == [32] + value
  {
    ColonIs(prefix + value, 14);
  }

  lemma HeaderLineFields(n: nat)
    ensures var line := HeaderLine(n);
            && IsAscii(line) && LowerAscii(FieldName(line)) == LengthName()
            && FieldValue(line) == [32] + Print(n) + [13, NEWLINE]
  {
    var value := Print(n) + [13, NEWLINE];
    Regroup(Prefix(), Print(n), [13, NEWLINE]);
    PrefixFields();
    FieldsOfLine(Prefix(), value);
    Regroup([32], Print(n), [13, NEWLINE]);
    assert IsAscii(value);
  }

  lemma HeaderLineIsLine(n: nat)
    ensures var line := HeaderLine(n);
            && |line| > 2 && line[|line| - 1] == NEWLINE && !IsBlank(line)
            && forall k | 0 <= k < |line| - 1 :: line[k] != NEWLINE
  {
    var prefix := Ascii("Content-Length: ");
    assert prefix == [67, 111, 110, 116, 101, 110, 116, 45, 76, 101, 110, 103, 116, 104, 58, 32];
  }

  /** Header line, blank line, body. */
  lemma FramePieces(data: seq<byte>, pos: nat, line: seq<byte>, body: seq<byte>)
    requires HoldsAt(data, pos, line + [13, NEWLINE] + body)
    ensures HoldsAt(data, pos, line) && HoldsAt(data, pos + |line|, [13, NEWLINE]) && HoldsAt(data, pos + |line| + 2, body)
  {
    HoldsSplit(data, pos, line + [13, NEWLINE], body);
    HoldsSplit(data, pos, line, [13, NEWLINE]);
  }

  lemma HeadersAreRead(data: seq<byte>, pos: nat, line: seq<byte>)
    requires pos <= |data| && HoldsAt(data, pos, line) && HoldsAt(data, pos + |line|, [13, NEWLINE])
    requires |line| > 2 && line[|line| - 1] == NEWLINE && !IsBlank(line)
    requires forall k | 0 <= k < |line| - 1 :: line[k] != NEWLINE
    ensures ReadHeaders(data, pos) == Some(Headers([line], pos + |line| + 2))
  {
    LineEndIs(data, pos, line);
    LineEndIs(data, pos + |line|, [13, NEWLINE]);
    assert ReadHeaders(data, pos + |line|) == Some(Headers([], pos + |line| + 2));
    assert [line] + [] == [line];
  }

  lemma LengthIsFound(n: nat)
    ensures ContentLength([HeaderLine(n)]) == Ok(n)
  {
    HeaderLineFields(n);
    PrintedIntIsRead(n);
  }

  lemma FrameIsRead(data: seq<byte>, pos: nat, body: seq<byte>)
    requires pos <= |data| && HoldsAt(data, pos, EncodeFrame(body))
    ensures Frame(data, pos) == FrameOutcome(Ok(body), pos + |EncodeFrame(body)|)
  {
    FramePieces(data, pos, HeaderLine(|body|), body);
    HeaderLineIsLine(|body|);
    HeadersAreRead(data, pos, HeaderLine(|body|));
    LengthIsFound(|body|);
  }

  function AllOk(bodies: seq<seq<byte>>): seq<Result<seq<byte>, FrameError>> {
    if bodies == [] then [] else [Ok(bodies[0])] + AllOk(bodies[1..])
  }

  lemma FirstFrameIsRead(data: seq<byte>, pos: nat, first: seq<byte>, more: seq<byte>, rest: seq<byte>)
    requires pos <= |data| && data[pos..] == EncodeFrame(first) + more + rest
    ensures var next := pos + |EncodeFrame(first)|;
            Frame(data, pos) == FrameOutcome(Ok(first), next) && next <= |data| && data[next..] == more + rest
  {
    Regroup(EncodeFrame(first), more, rest);
    RestSplit(data, pos, EncodeFrame(first), more + rest);
    FrameIsRead(data, pos, first);
  }

  lemma ReadAllStep(data: seq<byte>, pos: nat, calls: nat, body: seq<byte>, next: nat)
    requires pos <= |data| && next <= |data| && Frame(data, pos) == FrameOutcome(Ok(body), next)
    ensures ReadAll(data, pos, calls + 1).0 == [Ok(body)] + ReadAll(data, next, calls).0
    ensures ReadAll(data, pos, calls + 1).1 == ReadAll(data, next, calls).1
  {
  }

  /** All bodies come back in order, whatever bytes they hold, and exactly the remainder is left. */
  lemma {:induction false} FramesRoundTrip(data: seq<byte>, pos: nat, bodies: seq<seq<byte>>, rest: seq<byte>)
    requires pos <= |data| && data[pos..] == EncodeFrames(bodies) + rest
    ensures ReadAll(data, pos, |bodies|).0 == AllOk(bodies)
    ensures data[ReadAll(data, pos, |bodies|).1..] == rest
    decreases |bodies|
  {
    if bodies == [] {
      assert [] + rest == rest;
    } else {
      var body, more := bodies[0], bodies[1..];
      var next := pos + |EncodeFrame(body)|;
      assert EncodeFrames(bodies) == EncodeFrame(body) + EncodeFrames(more);
      FirstFrameIsRead(data, pos, body, EncodeFrames(more), rest);
      FramesRoundTrip(data, next, more, rest);
      ReadAllStep(data, pos, |more|, body, next);
    }
  }

  function Bodies<J>(codec: Codec<J>, messages: seq<J>): (bodies: seq<seq<byte>>)
    ensures |bodies| == |messages|
    ensures forall k | 0 <= k < |messages| :: bodies[k] == codec.encode(messages[k])
  {
    if messages == [] then [] else [codec.encode(messages[0])] + Bodies(codec, messages[1..])
  }

  lemma {:induction false} AllOkAt(bodies: seq<seq<byte>>, k: nat)
    requires k < |bodies|
    ensures |AllOk(bodies)| == |bodies| && AllOk(bodies)[k] == Ok(bodies[k])
    decreases |bodies|
  {
    if k > 0 {
      AllOkAt(bodies[1..], k - 1);
    } else if |bodies| > 1 {
      AllOkAt(bodies[1..], 0);
    }
  }

  /** Objects that the codec reads back come through the frames, in order, and exactly the remainder is left. */
  lemma MessagesRoundTrip<J>(codec: Codec<J>, data: seq<byte>, pos: nat, messages: seq<J>, rest: seq<byte>)
    requires forall k | 0 <= k < |messages| ::
               codec.decode(codec.encode(messages[k])) == Some(messages[k]) && codec.isObject(messages[k])
    requires pos <= |data| && data[pos..] == EncodeFrames(Bodies(codec, messages)) + rest
    ensures var (bodies, end) := ReadAll(data, pos, |messages|);
            && |bodies| == |messages| && data[end..] == rest
            && forall k | 0 <= k < |messages| :: MessageOf(codec, bodies[k]) == Ok(messages[k])
  {
    var bodies := Bodies(codec, messages);
    FramesRoundTrip(data, pos, bodies, rest);
    forall k | 0 <= k < |messages|
      ensures |AllOk(bodies)| == |bodies| && MessageOf(codec, AllOk(bodies)[k]) == Ok(messages[k])
    {
      AllOkAt(bodies, k);
    }
  }
}
