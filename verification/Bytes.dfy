/** Bytes, fixed-width words and the bit operations the readers and runtimes use, on integers. */
module Bytes {
  import opened Common

  type byte = n: int | 0 <= n < 256

  const U32 := 0x1_0000_0000
  const U64 := 0x1_0000_0000_0000_0000

  function Pow2(n: nat): (r: nat)
    ensures r > 0
  {
    if n == 0 then 1 else 2 * Pow2(n - 1)
  }

  function Max(a: int, b: int): int { if a < b then b else a }

  function Min(a: int, b: int): int { if a < b then a else b }

  /** Bitwise or. */
  function BitOr(a: nat, b: nat): nat
    decreases a + b
  {
    if a == 0 then b else if b == 0 then a else 2 * BitOr(a / 2, b / 2) + Max(a % 2, b % 2)
  }

  lemma OrWithEven(a: nat, h: nat)
    ensures BitOr(a, 2 * h) == 2 * BitOr(a / 2, h) + a % 2
  {
    assert (2 * h) / 2 == h && (2 * h) % 2 == 0;
    if a > 0 && h > 0 {
      assert BitOr(a, 2 * h) == 2 * BitOr(a / 2, h) + Max(a % 2, 0);
    }
  }

  lemma FactorOut(x: nat, c: nat, n: nat)
    ensures x * (c * n) == c * (x * n)
  {
  }

  /** Or-ing a low part with bits at and above `k` adds them. */
  lemma {:induction false} OrOfDisjointBits(a: nat, b: nat, k: nat)
    requires a < Pow2(k)
    ensures BitOr(a, b * Pow2(k)) == a + b * Pow2(k)
    decreases k
  {
    if k > 0 {
      OrOfDisjointBits(a / 2, b, k - 1);
      FactorOut(b, 2, Pow2(k - 1));
      OrWithEven(a, b * Pow2(k - 1));
    }
  }

  lemma {:induction false} Pow2Adds(m: nat, n: nat)
    ensures Pow2(m + n) == Pow2(m) * Pow2(n)
    decreases n
  {
    if n > 0 {
      Pow2Adds(m, n - 1);
    }
  }

  lemma {:induction false} Pow2Grows(m: nat, n: nat)
    requires m <= n
    ensures Pow2(m) <= Pow2(n)
    decreases n
  {
    if m < n {
      Pow2Grows(m, n - 1);
    }
  }

  /** `x << n` in a 64-bit word. */
  function ShiftLeft64(x: nat, n: nat): nat {
    (x * Pow2(n)) % U64
  }

  /** `x << n` in a 32-bit word. */
  function ShiftLeft32(x: nat, n: nat): nat {
    (x * Pow2(n)) % U32
  }

  // ------------------------------------------------------- little-endian words

  function LittleEndian(bs: seq<byte>): nat {
    if bs == [] then 0 else bs[0] + 256 * LittleEndian(bs[1..])
  }

  function ToLittleEndian(n: nat, width: nat): (bs: seq<byte>)
    ensures |bs| == width
  {
    if width == 0 then [] else [n % 256] + ToLittleEndian(n / 256, width - 1)
  }

  lemma {:induction false} LittleEndianBound(bs: seq<byte>)
    ensures LittleEndian(bs) < Pow2(8 * |bs|)
  {
    if bs != [] {
      LittleEndianBound(bs[1..]);
      EightBits(8 * (|bs| - 1));
    }
  }

  lemma {:induction false} LittleEndianRoundTrip(n: nat, width: nat)
    requires n < Pow2(8 * width)
    ensures LittleEndian(ToLittleEndian(n, width)) == n
  {
    if width > 0 {
      EightBits(8 * (width - 1));
      LittleEndianRoundTrip(n / 256, width - 1);
    }
  }

  lemma {:induction false} LittleEndianAppend(bs: seq<byte>, b: byte)
    ensures LittleEndian(bs + [b]) == LittleEndian(bs) + b * Pow2(8 * |bs|)
  {
    if bs == [] {
      assert bs + [b] == [b];
    } else {
      assert (bs + [b])[1..] == bs[1..] + [b];
      LittleEndianAppend(bs[1..], b);
      EightBits(8 * (|bs| - 1));
      FactorOut(b, 256, Pow2(8 * (|bs| - 1)));
    }
  }

  lemma Pow2OfByte()
    ensures Pow2(8) == 256
  {
    Pow2Adds(4, 4);
  }

  lemma Pow2OfWords()
    ensures Pow2(32) == U32 && Pow2(64) == U64
  {
    Pow2OfByte();
    Pow2Adds(8, 8);
    Pow2Adds(16, 16);
    Pow2Adds(32, 32);
  }

  lemma WordRoundTrip(n: nat)
    requires n < U32
    ensures LittleEndian(ToLittleEndian(n, 4)) == n
  {
    Pow2OfWords();
    LittleEndianRoundTrip(n, 4);
  }

  lemma ByteTimes(b: byte, n: nat)
    requires n > 0
    ensures 0 <= b * n < 256 * n
  {
  }

  /** A byte times a power that keeps it inside `top`. */
  lemma ByteInWord(b: byte, low: nat, top: nat)
    requires low + 8 <= top
    ensures 0 <= b * Pow2(low) < Pow2(top)
  {
    Pow2Grows(low + 8, top);
    EightBits(low);
    ByteTimes(b, Pow2(low));
  }

  lemma EightBits(low: nat)
    ensures Pow2(low + 8) == 256 * Pow2(low)
  {
    Pow2Adds(low, 8);
    Pow2OfByte();
  }

  lemma ProductGrows(x: nat, y: nat, n: nat)
    requires x <= y
    ensures 0 <= x * n <= y * n
  {
  }

  lemma SmallModulo(x: nat, n: nat)
    requires x < n
    ensures x % n == x
  {
  }

  /** Or-ing in the next byte, shifted past the bytes already there, appends it. */
  lemma OrNextByte(bs: seq<byte>, b: byte)
    ensures BitOr(LittleEndian(bs), b * Pow2(8 * |bs|)) == LittleEndian(bs + [b])
  {
    LittleEndianBound(bs);
    LittleEndianAppend(bs, b);
    OrOfDisjointBits(LittleEndian(bs), b, 8 * |bs|);
  }

  lemma OrNextByte32(bs: seq<byte>, b: byte)
    requires |bs| < 4
    ensures BitOr(LittleEndian(bs), ShiftLeft32(b, 8 * |bs|)) == LittleEndian(bs + [b])
  {
    OrNextByte(bs, b);
    ByteInWord(b, 8 * |bs|, 32);
    Pow2OfWords();
    SmallModulo(b * Pow2(8 * |bs|), U32);
  }

  lemma OrNextByte64(bs: seq<byte>, b: byte)
    requires |bs| < 8
    ensures BitOr(LittleEndian(bs), ShiftLeft64(b, 8 * |bs|)) == LittleEndian(bs + [b])
  {
    OrNextByte(bs, b);
    ByteInWord(b, 8 * |bs|, 64);
    Pow2OfWords();
    SmallModulo(b * Pow2(8 * |bs|), U64);
  }

  // ------------------------------------------------------------------- slices

  function CheckedAdd(a: nat, b: nat): Option<nat> {
    if a + b < U64 then Some(a + b) else None
  }

  function CheckedSlice(bytes: seq<byte>, offset: nat, len: nat): Option<seq<byte>> {
    if CheckedAdd(offset, len).Some? && offset + len <= |bytes| then Some(bytes[offset..offset + len]) else None
  }

  /** `bs` stands in `bytes` at `at`. */
  ghost predicate HoldsAt(bytes: seq<byte>, at: nat, bs: seq<byte>) {
    at + |bs| <= |bytes| && bytes[at..at + |bs|] == bs
  }

  /** A text cut in two stands in two pieces. */
  lemma HoldsSplit(bytes: seq<byte>, at: nat, a: seq<byte>, b: seq<byte>)
    requires HoldsAt(bytes, at, a + b)
    ensures HoldsAt(bytes, at, a) && HoldsAt(bytes, at + |a|, b)
  {
    assert bytes[at..at + |a|] == (a + b)[..|a|] == a;
    assert bytes[at + |a|..at + |a| + |b|] == (a + b)[|a|..] == b;
  }

  /** What is left of `bytes` at `at`, cut behind its first piece. */
  lemma RestSplit(bytes: seq<byte>, at: nat, first: seq<byte>, rest: seq<byte>)
    requires at <= |bytes| && bytes[at..] == first + rest
    ensures HoldsAt(bytes, at, first) && bytes[at + |first|..] == rest
  {
    assert bytes[at..at + |first|] == bytes[at..][..|first|] == first;
    assert bytes[at + |first|..] == bytes[at..][|first|..] == rest;
  }

  lemma SliceOfRest<T>(s: seq<T>, i: nat, k: nat, n: nat)
    requires i + k + n <= |s|
    ensures s[i..][k..k + n] == s[i + k..i + k + n]
  {
  }

  lemma SameInPrefix<T>(s: seq<T>, t: seq<T>, n: nat, i: nat, j: nat)
    requires i <= j <= n <= |s| && n <= |t| && s[..n] == t[..n]
    ensures s[i..j] == t[i..j]
  {
    assert forall k | 0 <= k < n :: s[k] == s[..n][k] == t[..n][k] == t[k];
  }

  lemma SameInSuffix<T>(s: seq<T>, t: seq<T>, n: nat, i: nat, j: nat)
    requires n <= i <= j <= |s| == |t| && s[n..] == t[n..]
    ensures s[i..j] == t[i..j]
  {
    assert forall k | n <= k < |s| :: s[k] == s[n..][k - n] == t[n..][k - n] == t[k];
  }

  lemma Regroup<T>(a: seq<T>, b: seq<T>, c: seq<T>)
    ensures (a + b) + c == a + (b + c)
  {
  }

  // -------------------------------------------------------------------- ASCII

  /** The bytes of an ASCII string. */
  function Ascii(s: string): (r: seq<byte>)
    ensures |r| == |s|
  {
    seq(|s|, k requires 0 <= k < |s| => (s[k] as int) % 256)
  }
}
