/**
 Well-formed UTF-8, told from the characters (Unicode Standard, section 3.9, table 3-6), and what the byte-wise
 readers of `Utf8` make of it.
 */
module Utf8Characters {
  import opened Common
  import opened Bytes
  import opened Utf8

  /** A Unicode scalar value: a code point that is no surrogate. */
  predicate IsScalar(c: int) { 0 <= c < 0xD800 || 0xE000 <= c < 0x110000 }

  function EncodeScalar(c: int): (bs: seq<byte>)
    requires IsScalar(c)
    ensures 0 < |bs| <= 4
  {
    if c < 0x80 then [c]
    else if c < 0x800 then [0xC0 + c / 64, 0x80 + c % 64]
    else if c < 0x10000 then [0xE0 + c / 4096, 0x80 + c / 64 % 64, 0x80 + c % 64]
    else [0xF0 + c / 262144, 0x80 + c / 4096 % 64, 0x80 + c / 64 % 64, 0x80 + c % 64]
  }

  /** The characters of a text and the bytes of each. */
  function Encoder(): int -> seq<byte> {
    c => if IsScalar(c) then EncodeScalar(c) else []
  }

  function Joined(encode: int -> seq<byte>, cs: seq<int>): seq<byte> {
    if cs == [] then [] else encode(cs[0]) + Joined(encode, cs[1..])
  }

  predicate AreScalars(cs: seq<int>) {
    cs == [] || (IsScalar(cs[0]) && AreScalars(cs[1..]))
  }

  function EncodeText(cs: seq<int>): seq<byte>
    requires AreScalars(cs)
  {
    Joined(Encoder(), cs)
  }

  // ---------------------------------------------------------------- one character

  lemma TwoParts(c: int)
    requires 0x80 <= c < 0x800
    ensures c == (c / 64) * 64 + c % 64 && 2 <= c / 64 < 32
  {
  }

  lemma ThreeParts(c: int)
    requires 0x800 <= c < 0x10000
    ensures c == (c / 4096 * 64 + c / 64 % 64) * 64 + c % 64 && 0 <= c / 4096 < 16
    ensures c / 4096 == 0 ==> c / 64 % 64 >= 32
    ensures c / 4096 == 13 && c < 0xD800 ==> c / 64 % 64 < 32
    ensures c / 4096 == 13 ==> c < 0xE000
  {
    assert c / 4096 == c / 64 / 64;
  }

  lemma FourParts(c: int)
    requires 0x10000 <= c < 0x110000
    ensures c == ((c / 262144 * 64 + c / 4096 % 64) * 64 + c / 64 % 64) * 64 + c % 64 && 0 <= c / 262144 <= 4
    ensures c / 262144 == 0 ==> c / 4096 % 64 >= 16
    ensures c / 262144 == 4 ==> c / 4096 % 64 < 16
  {
    assert c / 4096 == c / 64 / 64 && c / 262144 == c / 64 / 64 / 64;
  }

  /** What stands in front decides: an encoded character is found whole, and its code is the character. */
  lemma CharacterIsFirst(c: int, rest: seq<byte>)
    requires IsScalar(c)
    ensures var s, n := EncodeScalar(c) + rest, |EncodeScalar(c)|; First(s) == Piece(true, n) && Code(s, n) == c
  {
    var s := EncodeScalar(c) + rest;
    assert forall k | 0 <= k < |EncodeScalar(c)| :: s[k] == EncodeScalar(c)[k];
    if c < 0x80 {
    } else if c < 0x800 {
      TwoParts(c);
    } else if c < 0x10000 {
      ThreeParts(c);
    } else {
      FourParts(c);
    }
  }

  lemma LowSix(h: nat, a: nat)
    requires a < 64
    ensures (h * 64 + a) / 64 == h && (h * 64 + a) % 64 == a
  {
  }

  lemma ThreeFit(h: nat, a: nat, b: nat, c: nat)
    requires a < 64 && b < 64 && c == (h * 64 + a) * 64 + b && h < 16
    ensures c / 4096 == h && c / 64 % 64 == a && c % 64 == b
  {
    LowSix(h * 64 + a, b);
    LowSix(h, a);
  }

  lemma FourFit(h: nat, a: nat, b: nat, d: nat, c: nat)
    requires a < 64 && b < 64 && d < 64 && c == ((h * 64 + a) * 64 + b) * 64 + d
    ensures c / 262144 == h && c / 4096 % 64 == a && c / 64 % 64 == b && c % 64 == d
  {
    LowSix((h * 64 + a) * 64 + b, d);
    LowSix(h * 64 + a, b);
    LowSix(h, a);
    assert c / 262144 == c / 64 / 64 / 64 && c / 4096 == c / 64 / 64;
  }

  lemma TwoIsCharacter(x: byte, y: byte)
    requires 0xC2 <= x < 0xE0 && IsContinuation(y)
    ensures var c := Low(x - 0xC0, y); IsScalar(c) && EncodeScalar(c) == [x, y]
  {
    LowSix(x - 0xC0, y - 0x80);
  }

  lemma ThreeIsCharacter(x: byte, y: byte, z: byte)
    requires 0xE0 <= x < 0xF0 && IsContinuation(y) && IsContinuation(z)
    requires (x == 0xE0 ==> y >= 0xA0) && (x == 0xED ==> y < 0xA0)
    ensures var c := Low(Low(x - 0xE0, y), z); IsScalar(c) && EncodeScalar(c) == [x, y, z]
  {
    ThreeFit(x - 0xE0, y - 0x80, z - 0x80, Low(Low(x - 0xE0, y), z));
  }

  lemma FourIsCharacter(x: byte, y: byte, z: byte, w: byte)
    requires 0xF0 <= x <= 0xF4 && IsContinuation(y) && IsContinuation(z) && IsContinuation(w)
    requires (x == 0xF0 ==> y >= 0x90) && (x == 0xF4 ==> y < 0x90)
    ensures var c := Low(Low(Low(x - 0xF0, y), z), w); IsScalar(c) && EncodeScalar(c) == [x, y, z, w]
  {
    FourFit(x - 0xF0, y - 0x80, z - 0x80, w - 0x80, Low(Low(Low(x - 0xF0, y), z), w));
  }

  /** Conversely, whatever is found whole is the encoding of its code. */
  lemma FirstIsCharacter(s: seq<byte>)
    requires s != [] && First(s).valid
    ensures var n := First(s).size; IsScalar(Code(s, n)) && EncodeScalar(Code(s, n)) == s[..n]
  {
    var n := First(s).size;
    if n == 1 {
      assert s[..1] == [s[0]];
    } else if n == 2 {
      TwoIsCharacter(s[0], s[1]);
      assert s[..2] == [s[0], s[1]];
    } else if n == 3 {
      ThreeIsCharacter(s[0], s[1], s[2]);
      assert s[..3] == [s[0], s[1], s[2]];
    } else {
      FourIsCharacter(s[0], s[1], s[2], s[3]);
      assert s[..4] == [s[0], s[1], s[2], s[3]];
    }
  }

  // -------------------------------------------------------------- malformed pieces

  lemma SecondByteGoes(s: seq<byte>, c: int)
    requires IsScalar(c) && |EncodeScalar(c)| >= 2 && |s| >= 2
    requires s[0] == EncodeScalar(c)[0] && s[1] == EncodeScalar(c)[1]
    ensures Goes(s) && (|EncodeScalar(c)| == 2 <==> s[0] < 0xE0) && (|EncodeScalar(c)| == 4 <==> s[0] >= 0xF0)
  {
    if c < 0x800 {
      TwoParts(c);
    } else if c < 0x10000 {
      ThreeParts(c);
    } else {
      FourParts(c);
    }
  }

  /** Where no whole character stands, none begins with more than the piece found. */
  lemma NothingLongerBegins(s: seq<byte>, c: int, k: nat)
    requires s != [] && !First(s).valid && IsScalar(c) && k <= |s| && k <= |EncodeScalar(c)|
    requires s[..k] == EncodeScalar(c)[..k]
    ensures k <= First(s).size && k < |EncodeScalar(c)|
  {
    var bs := EncodeScalar(c);
    assert forall i | 0 <= i < k :: s[i] == s[..k][i] == bs[i];
    if k == |bs| {
      assert bs + s[k..] == s;
      CharacterIsFirst(c, s[k..]);
    } else if k >= 2 {
      SecondByteGoes(s, c);
    }
  }

  /** The piece is the start of some character, unless it is a single byte. */
  lemma PieceBeginsOne(s: seq<byte>) returns (c: int)
    requires s != [] && !First(s).valid && First(s).size > 1
    ensures var n := First(s).size; IsScalar(c) && n < |EncodeScalar(c)| && EncodeScalar(c)[..n] == s[..n]
  {
    var lead: int, a: int := s[0], s[1] - 0x80;
    if lead < 0xF0 {
      c := ((lead - 0xE0) * 64 + a) * 64;
      ThreeFit(lead - 0xE0, a, 0, c);
    } else {
      var b: int := if First(s).size == 2 then 0 else s[2] - 0x80;
      c := (((lead - 0xF0) * 64 + a) * 64 + b) * 64;
      FourFit(lead - 0xF0, a, b, 0, c);
    }
  }

  /** Each longest piece that goes wrong becomes U+FFFD, and reading goes on behind it. */
  lemma MalformedIsReplaced(s: seq<byte>)
    requires s != [] && !First(s).valid
    ensures Lossy(s) == [0xEF, 0xBF, 0xBD] + Lossy(s[First(s).size..])
  {
  }

  /** A whole character is kept. */
  lemma CharacterIsKept(c: int, rest: seq<byte>)
    requires IsScalar(c)
    ensures Lossy(EncodeScalar(c) + rest) == EncodeScalar(c) + Lossy(rest)
  {
    CharacterIsFirst(c, rest);
    var s, n := EncodeScalar(c) + rest, |EncodeScalar(c)|;
    assert s[..n] == EncodeScalar(c) && s[n..] == rest;
  }

  // -------------------------------------------------------------------- whole texts

  lemma EncoderOf(c: int)
    requires IsScalar(c)
    ensures Encoder()(c) == EncodeScalar(c)
  {
  }

  lemma JoinedStep(encode: int -> seq<byte>, cs: seq<int>)
    requires cs != [] && encode(cs[0]) != [] && First(Joined(encode, cs)) == Piece(true, |encode(cs[0])|)
    requires IsUtf8(Joined(encode, cs[1..]))
    ensures IsUtf8(Joined(encode, cs))
  {
    assert Joined(encode, cs)[|encode(cs[0])|..] == Joined(encode, cs[1..]);
  }

  /** The encoding of any characters is well formed. */
  lemma {:induction false} EncodedTextIsUtf8(cs: seq<int>)
    requires AreScalars(cs)
    ensures IsUtf8(EncodeText(cs))
  {
    if cs != [] {
      EncodedTextIsUtf8(cs[1..]);
      CharacterIsFirst(cs[0], Joined(Encoder(), cs[1..]));
      EncoderOf(cs[0]);
      JoinedStep(Encoder(), cs);
    }
  }

  lemma JoinedPrepend(encode: int -> seq<byte>, c: int, rest: seq<int>)
    ensures Joined(encode, [c] + rest) == encode(c) + Joined(encode, rest)
  {
    assert ([c] + rest)[1..] == rest;
  }

  /** Well-formed text is the encoding of some characters. */
  lemma {:induction false} Utf8IsEncodedText(s: seq<byte>) returns (cs: seq<int>)
    requires IsUtf8(s)
    ensures AreScalars(cs) && EncodeText(cs) == s
    decreases |s|
  {
    cs := [];
    if s != [] {
      var n := First(s).size;
      var rest := Utf8IsEncodedText(s[n..]);
      cs := FirstPrepended(s, n, rest);
    }
  }

  lemma ScalarPrepended(c: int, rest: seq<int>, first: seq<byte>, behind: seq<byte>)
    requires IsScalar(c) && AreScalars(rest)
    requires Encoder()(c) == first && Joined(Encoder(), rest) == behind
    ensures AreScalars([c] + rest) && Joined(Encoder(), [c] + rest) == first + behind
  {
    JoinedPrepend(Encoder(), c, rest);
    assert ([c] + rest)[1..] == rest;
  }

  lemma FirstPrepended(s: seq<byte>, n: nat, rest: seq<int>) returns (cs: seq<int>)
    requires s != [] && First(s) == Piece(true, n) && AreScalars(rest) && Joined(Encoder(), rest) == s[n..]
    ensures AreScalars(cs) && Joined(Encoder(), cs) == s
  {
    FirstIsCharacter(s);
    ScalarPrepended(Code(s, n), rest, s[..n], s[n..]);
    cs := [Code(s, n)] + rest;
    assert s[..n] + s[n..] == s;
  }

  // ---------------------------------------------------------------------- trimming

  lemma {:induction false} JoinedAppend(encode: int -> seq<byte>, cs: seq<int>, ds: seq<int>)
    ensures Joined(encode, cs + ds) == Joined(encode, cs) + Joined(encode, ds)
  {
    if cs == [] {
      assert cs + ds == ds;
    } else {
      JoinedAppend(encode, cs[1..], ds);
      assert (cs + ds)[1..] == cs[1..] + ds && (cs + ds)[0] == cs[0];
      Regroup(encode(cs[0]), Joined(encode, cs[1..]), Joined(encode, ds));
    }
  }

  lemma JoinedLast(encode: int -> seq<byte>, cs: seq<int>, c: int)
    ensures Joined(encode, cs + [c]) == Joined(encode, cs) + encode(c)
  {
    JoinedAppend(encode, cs, [c]);
    assert Joined(encode, [c]) == encode(c) + Joined(encode, [c][1..]) && [c][1..] == [];
  }

  /** Whitespace to trim, whatever stands on its other side. */
  ghost predicate IsBlank(bs: seq<byte>) {
    && bs != []
    && (forall rest: seq<byte> :: SpaceAtStart(bs + rest) == |bs|)
    && (forall front: seq<byte> :: SpaceAtEnd(front + bs) == |bs|)
  }

  ghost predicate IsInk(bs: seq<byte>) {
    && (forall rest: seq<byte> :: SpaceAtStart(bs + rest) == 0)
    && (forall front: seq<byte> :: SpaceAtEnd(front + bs) == 0)
  }

  ghost predicate AreBlank(encode: int -> seq<byte>, cs: seq<int>) {
    cs == [] || (IsBlank(encode(cs[0])) && AreBlank(encode, cs[1..]))
  }

  lemma BlankInFront(bs: seq<byte>, rest: seq<byte>)
    requires IsBlank(bs)
    ensures TrimStart(bs + rest) == TrimStart(rest)
  {
    assert (bs + rest)[|bs|..] == rest;
  }

  lemma BlankBehind(front: seq<byte>, bs: seq<byte>)
    requires IsBlank(bs)
    ensures TrimEnd(front + bs) == TrimEnd(front)
  {
    assert (front + bs)[..|front|] == front;
  }

  lemma {:induction false} BlankStartIsTrimmed(encode: int -> seq<byte>, lead: seq<int>, rest: seq<byte>)
    requires AreBlank(encode, lead)
    ensures TrimStart(Joined(encode, lead) + rest) == TrimStart(rest)
  {
    if lead == [] {
      assert [] + rest == rest;
    } else {
      BlankStartIsTrimmed(encode, lead[1..], rest);
      Regroup(encode(lead[0]), Joined(encode, lead[1..]), rest);
      BlankInFront(encode(lead[0]), Joined(encode, lead[1..]) + rest);
    }
  }

  lemma {:induction false} BlankEndIsTrimmed(encode: int -> seq<byte>, front: seq<byte>, trail: seq<int>)
    requires AreBlank(encode, trail)
    ensures TrimEnd(front + Joined(encode, trail)) == TrimEnd(front)
    decreases |trail|
  {
    if trail == [] {
      assert front + [] == front;
    } else {
      BlankEndIsTrimmed(encode, front + encode(trail[0]), trail[1..]);
      Regroup(front, encode(trail[0]), Joined(encode, trail[1..]));
      BlankBehind(front, encode(trail[0]));
    }
  }

  lemma InkIsKept(encode: int -> seq<byte>, cs: seq<int>, rest: seq<byte>)
    requires cs != [] && IsInk(encode(cs[0])) && IsInk(encode(cs[|cs| - 1]))
    ensures TrimStart(Joined(encode, cs) + rest) == Joined(encode, cs) + rest
    ensures TrimEnd(Joined(encode, cs)) == Joined(encode, cs)
  {
    Regroup(encode(cs[0]), Joined(encode, cs[1..]), rest);
    var front, c := cs[..|cs| - 1], cs[|cs| - 1];
    assert cs == front + [c];
    JoinedLast(encode, front, c);
  }

  lemma JoinedIsTrimmed(encode: int -> seq<byte>, lead: seq<int>, cs: seq<int>, trail: seq<int>)
    requires AreBlank(encode, lead) && AreBlank(encode, trail)
    requires cs == [] || (IsInk(encode(cs[0])) && IsInk(encode(cs[|cs| - 1])))
    ensures Trim(Joined(encode, lead) + (Joined(encode, cs) + Joined(encode, trail))) == Joined(encode, cs)
  {
    var text, behind := Joined(encode, cs), Joined(encode, trail);
    BlankStartIsTrimmed(encode, lead, text + behind);
    if cs == [] {
      assert text + behind == behind && behind + [] == behind;
      BlankStartIsTrimmed(encode, trail, []);
    } else {
      InkIsKept(encode, cs, behind);
      BlankEndIsTrimmed(encode, text, trail);
    }
  }

  /** Looking from the end, no start is found inside the last character. */
  lemma {:induction false} LastIsFound(front: seq<byte>, c: int, k: nat)
    requires IsScalar(c) && 0 < k <= |EncodeScalar(c)|
    ensures LastSize(front + EncodeScalar(c), k) == |EncodeScalar(c)|
    decreases |EncodeScalar(c)| - k
  {
    var bs := EncodeScalar(c);
    var s := front + bs;
    assert s[|s| - k..] == bs[|bs| - k..];
    if k == |bs| {
      CharacterIsFirst(c, []);
      assert bs + [] == bs && bs[0..] == bs;
    } else {
      assert IsContinuation(bs[|bs| - k]);
      LastIsFound(front, c, k + 1);
    }
  }

  lemma SpaceBehind(front: seq<byte>, c: int)
    requires IsScalar(c)
    ensures SpaceAtEnd(front + EncodeScalar(c)) == if IsWhiteSpace(c) then |EncodeScalar(c)| else 0
  {
    var s, n := front + EncodeScalar(c), |EncodeScalar(c)|;
    LastIsFound(front, c, 1);
    CharacterIsFirst(c, []);
    assert s[|s| - n..] == EncodeScalar(c) + [];
  }

  lemma SpaceInFront(c: int, rest: seq<byte>)
    requires IsScalar(c)
    ensures SpaceAtStart(EncodeScalar(c) + rest) == if IsWhiteSpace(c) then |EncodeScalar(c)| else 0
  {
    CharacterIsFirst(c, rest);
  }

  lemma BlankOrInk(c: int)
    requires IsScalar(c)
    ensures if IsWhiteSpace(c) then IsBlank(Encoder()(c)) else IsInk(Encoder()(c))
  {
    forall rest: seq<byte>
      ensures SpaceAtStart(EncodeScalar(c) + rest) == if IsWhiteSpace(c) then |EncodeScalar(c)| else 0
    {
      SpaceInFront(c, rest);
    }
    forall front: seq<byte>
      ensures SpaceAtEnd(front + EncodeScalar(c)) == if IsWhiteSpace(c) then |EncodeScalar(c)| else 0
    {
      SpaceBehind(front, c);
    }
    EncoderOf(c);
  }

  predicate AreWhite(cs: seq<int>) {
    cs == [] || (IsScalar(cs[0]) && IsWhiteSpace(cs[0]) && AreWhite(cs[1..]))
  }

  lemma {:induction false} WhiteIsBlank(cs: seq<int>)
    requires AreWhite(cs)
    ensures AreScalars(cs) && AreBlank(Encoder(), cs)
  {
    if cs != [] {
      BlankOrInk(cs[0]);
      WhiteIsBlank(cs[1..]);
    }
  }

  lemma {:induction false} LastIsScalar(cs: seq<int>)
    requires AreScalars(cs) && cs != []
    ensures IsScalar(cs[|cs| - 1])
  {
    if |cs| > 1 {
      LastIsScalar(cs[1..]);
    }
  }

  /** Trimming takes every whitespace character off both ends of a text, and no other character. */
  lemma TextIsTrimmed(lead: seq<int>, cs: seq<int>, trail: seq<int>)
    requires AreWhite(lead) && AreScalars(cs) && AreWhite(trail)
    requires cs == [] || (!IsWhiteSpace(cs[0]) && !IsWhiteSpace(cs[|cs| - 1]))
    ensures AreScalars(lead) && AreScalars(trail)
    ensures Trim(EncodeText(lead) + (EncodeText(cs) + EncodeText(trail))) == EncodeText(cs)
  {
    WhiteIsBlank(lead);
    WhiteIsBlank(trail);
    if cs != [] {
      BlankOrInk(cs[0]);
      LastIsScalar(cs);
      BlankOrInk(cs[|cs| - 1]);
    }
    JoinedIsTrimmed(Encoder(), lead, cs, trail);
  }
}
