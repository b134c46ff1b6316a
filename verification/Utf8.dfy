/** UTF-8 as the standard library reads it: checking, replacing what is malformed, and trimming whitespace. */
module Utf8 {
  import opened Common
  import opened Bytes

  predicate IsContinuation(b: byte) { 128 <= b < 192 }

  /** What stands at the start of a text: a character, or the longest start of one that goes wrong. */
  datatype Piece = Piece(valid: bool, size: nat)

  /** The first byte announces more, and the second is one that may follow it. */
  predicate Goes(s: seq<byte>) {
    && |s| >= 2 && 0xC2 <= s[0] <= 0xF4 && IsContinuation(s[1])
    && (s[0] == 0xE0 ==> s[1] >= 0xA0) && (s[0] == 0xED ==> s[1] < 0xA0)
    && (s[0] == 0xF0 ==> s[1] >= 0x90) && (s[0] == 0xF4 ==> s[1] < 0x90)
  }

  function First(s: seq<byte>): (p: Piece)
    requires s != []
    ensures 0 < p.size <= |s|
  {
    if s[0] < 128 then Piece(true, 1)
    else if !Goes(s) then Piece(false, 1)
    else if s[0] < 0xE0 then Piece(true, 2)
    else if |s| < 3 || !IsContinuation(s[2]) then Piece(false, 2)
    else if s[0] < 0xF0 then Piece(true, 3)
    else if |s| < 4 || !IsContinuation(s[3]) then Piece(false, 3)
    else Piece(true, 4)
  }

  predicate IsUtf8(s: seq<byte>)
    decreases |s|
  {
    s == [] || (First(s).valid && IsUtf8(s[First(s).size..]))
  }

  /** U+FFFD, which stands for every malformed piece. */
  function Replacement(): seq<byte> { [0xEF, 0xBF, 0xBD] }

  /** `String::from_utf8_lossy`. */
  function Lossy(s: seq<byte>): seq<byte>
    decreases |s|
  {
    if s == [] then []
    else
      var p := First(s);
      (if p.valid then s[..p.size] else Replacement()) + Lossy(s[p.size..])
  }

  // ----------------------------------------------------------------- trimming

  /** The code point of a character of `n` bytes, at most four. */
  function Code(s: seq<byte>, n: nat): int
    requires 0 < n <= |s|
  {
    var lead: int := s[0];
    if n == 1 then lead
    else if n == 2 then Low(lead - 0xC0, s[1])
    else if n == 3 then Low(Low(lead - 0xE0, s[1]), s[2])
    else if n == 4 then Low(Low(Low(lead - 0xF0, s[1]), s[2]), s[3])
    else 0
  }

  /** Six more bits from a continuation byte. */
  function Low(high: int, b: int): int { high * 64 + (b - 0x80) }

  /** The size of the whitespace character the text begins with, or 0. */
  function SpaceAtStart(s: seq<byte>): (n: nat)
    ensures n <= |s|
  {
    if s != [] && First(s).valid && IsWhiteSpace(Code(s, First(s).size)) then First(s).size else 0
  }

  /** The size of the last character, looked for from `k` bytes on. */
  function LastSize(s: seq<byte>, k: nat): (n: nat)
    requires k > 0
    ensures n <= |s|
    decreases |s| - k
  {
    if k > |s| then 0
    else if First(s[|s| - k..]) == Piece(true, k) then k
    else LastSize(s, k + 1)
  }

  /** The size of the whitespace character the text ends with, or 0. */
  function SpaceAtEnd(s: seq<byte>): (n: nat)
    ensures n <= |s|
  {
    var k := LastSize(s, 1);
    if k > 0 && IsWhiteSpace(Code(s[|s| - k..], k)) then k else 0
  }

  function TrimStart(s: seq<byte>): (r: seq<byte>)
    ensures |r| <= |s|
  {
    var n := SpaceAtStart(s);
    if n > 0 then TrimStart(s[n..]) else s
  }

  function TrimEnd(s: seq<byte>): (r: seq<byte>)
    ensures |r| <= |s|
  {
    var n := SpaceAtEnd(s);
    if n > 0 then TrimEnd(s[..|s| - n]) else s
  }

  /** `str::trim`. */
  function Trim(s: seq<byte>): seq<byte> { TrimEnd(TrimStart(s)) }

  /** Neither end is whitespace. */
  predicate IsTrimmed(s: seq<byte>) {
    SpaceAtStart(s) == 0 && SpaceAtEnd(s) == 0
  }

  // --------------------------------------------------------------- properties

  /** A byte that continues nothing ends the piece in front of it. */
  lemma FirstStops(a: seq<byte>, c: byte, b: seq<byte>)
    requires a != [] && !IsContinuation(c)
    ensures First(a + ([c] + b)) == First(a)
  {
    var s := a + ([c] + b);
    assert forall k | 0 <= k < |a| :: s[k] == a[k];
    assert s[|a|] == c;
  }

  lemma {:induction false} AsciiIsUtf8(s: seq<byte>)
    requires forall k | 0 <= k < |s| :: s[k] < 128
    ensures IsUtf8(s)
  {
    if s != [] {
      AsciiIsUtf8(s[1..]);
    }
  }

  lemma Utf8Step(a: seq<byte>, c: byte, b: seq<byte>)
    requires a != [] && c < 128
    ensures var s, n := a + ([c] + b), First(a).size;
            First(s) == First(a) && n <= |s| && s[n..] == a[n..] + ([c] + b)
  {
    FirstStops(a, c, b);
  }

  lemma {:induction false} Utf8ThenAscii(a: seq<byte>, c: byte, b: seq<byte>)
    requires IsUtf8(a) && c < 128 && forall k | 0 <= k < |b| :: b[k] < 128
    ensures IsUtf8(a + ([c] + b))
    decreases |a|
  {
    if a == [] {
      assert a + ([c] + b) == [c] + b;
      AsciiIsUtf8([c] + b);
    } else {
      Utf8Step(a, c, b);
      Utf8ThenAscii(a[First(a).size..], c, b);
    }
  }

  /** Well-formed text is left as it is. */
  lemma {:induction false} LossyKeepsUtf8(s: seq<byte>)
    requires IsUtf8(s)
    ensures Lossy(s) == s
    decreases |s|
  {
    if s != [] {
      var n := First(s).size;
      LossyKeepsUtf8(s[n..]);
      assert s[..n] + s[n..] == s;
    }
  }

  /** What is malformed never reaches over an ASCII character. */
  lemma {:induction false} LossySplit(a: seq<byte>, c: byte, b: seq<byte>)
    requires c < 128
    ensures Lossy(a + ([c] + b)) == Lossy(a) + ([c] + Lossy(b))
    decreases |a|
  {
    var s := a + ([c] + b);
    if a == [] {
      assert s == [c] + b && s[..1] == [c] && s[1..] == b;
      assert Lossy(a) + ([c] + Lossy(b)) == [c] + Lossy(b);
    } else {
      var p := First(a);
      FirstStops(a, c, b);
      assert s[..p.size] == a[..p.size] && s[p.size..] == a[p.size..] + ([c] + b);
      LossySplit(a[p.size..], c, b);
      Regroup(if p.valid then a[..p.size] else Replacement(), Lossy(a[p.size..]), [c] + Lossy(b));
    }
  }

  /** Replacing brings in no ASCII character. */
  lemma {:induction false} LossyBringsNoAscii(s: seq<byte>, c: byte)
    requires c < 128 && forall k | 0 <= k < |s| :: s[k] != c
    ensures forall k | 0 <= k < |Lossy(s)| :: Lossy(s)[k] != c
    decreases |s|
  {
    if s != [] {
      LossyBringsNoAscii(s[First(s).size..], c);
    }
  }

  /** A text whose replaced form is ASCII was ASCII and is left as it is. */
  lemma {:induction false} AsciiLossyIsSame(s: seq<byte>)
    requires forall k | 0 <= k < |Lossy(s)| :: Lossy(s)[k] < 128
    ensures Lossy(s) == s
    decreases |s|
  {
    if s != [] {
      var p := First(s);
      var head, rest := if p.valid then s[..p.size] else Replacement(), Lossy(s[p.size..]);
      assert Lossy(s)[0] == head[0];
      assert forall k | 0 <= k < |rest| :: rest[k] == Lossy(s)[|head| + k];
      AsciiLossyIsSame(s[p.size..]);
      assert s[..p.size] + s[p.size..] == s;
    }
  }

  lemma SpaceEnds(s: seq<byte>)
    ensures SpaceAtEnd(s + [32]) == 1
  {
    var t := s + [32];
    assert t[|t| - 1..] == [32];
  }

  /** Trimming takes spaces off the end and nothing else. */
  lemma {:induction false} TrimmedBack(s: seq<byte>, pad: seq<byte>)
    requires |s| > 0 && IsTrimmed(s) && forall k | 0 <= k < |pad| :: pad[k] == 32
    ensures Trim(s + pad) == s
    decreases |pad|
  {
    if pad == [] {
      assert s + pad == s;
    } else {
      var shorter := pad[..|pad| - 1];
      SpacesBehind(s, pad);
      SpacesBehind(s, shorter);
      assert s + pad == (s + shorter) + [32];
      SpaceEnds(s + shorter);
      assert (s + pad)[..|s + pad| - 1] == s + shorter;
      TrimmedBack(s, shorter);
    }
  }

  lemma SpacesBehind(s: seq<byte>, pad: seq<byte>)
    requires |s| > 0 && SpaceAtStart(s) == 0 && forall k | 0 <= k < |pad| :: pad[k] == 32
    ensures TrimStart(s + pad) == s + pad
  {
    if pad == [] {
      assert s + pad == s;
    } else {
      assert s + pad == s + ([pad[0]] + pad[1..]);
      FirstStops(s, pad[0], pad[1..]);
    }
  }

  /** A text that begins and ends in ASCII other than whitespace is trimmed. */
  lemma AsciiEndsAreTrimmed(s: seq<byte>)
    requires |s| > 0 && s[0] < 128 && s[|s| - 1] < 128 && !IsWhiteSpace(s[0]) && !IsWhiteSpace(s[|s| - 1])
    ensures IsTrimmed(s)
  {
    assert s[|s| - 1..] == [s[|s| - 1]];
  }
}
