/** What single reads of the cursors return, told by the bytes that stand at the position. */
module CursorValues {
  import opened Bytes
  import opened Cursors

  /** The bytes in front of a place, at most `n`, where a read finds them. */
  function Ahead(data: seq<byte>, size: nat, pos: nat, n: nat): seq<byte>
    requires pos <= size <= |data|
  {
    if pos + n <= size then data[pos..pos + n] else data[pos..size]
  }

  /** A byte is read as itself; at the end 0 is read and the cursor stays. */
  lemma ByteIsRead(data: seq<byte>, size: nat, pos: nat)
    requires pos <= size <= |data|
    ensures CStep(data, size, pos, CallU8) == if pos < size then Outcome(Number(data[pos]), pos + 1) else Outcome(Number(0), pos)
  {
    if pos < size {
      assert Next(data, size, pos, 1) == [data[pos]];
      assert LittleEndian([data[pos]]) == data[pos] by { assert [data[pos]][1..] == []; }
    } else {
      assert Next(data, size, pos, 1) == [];
    }
  }

  lemma WordAhead(data: seq<byte>, size: nat, pos: nat, bs: seq<byte>)
    requires HoldsAt(data, pos, bs) && pos + |bs| <= size <= |data|
    ensures Next(data, size, pos, |bs|) == bs
  {
  }

  /** A signed word stored in two's complement, least significant byte first, is read back. */
  lemma I32IsReadBack(data: seq<byte>, size: nat, pos: nat, n: int)
    requires -0x8000_0000 <= n < 0x8000_0000
    requires HoldsAt(data, pos, ToLittleEndian(if n < 0 then n + 0x1_0000_0000 else n, 4)) && pos + 4 <= size <= |data|
    ensures CStep(data, size, pos, CallI32) == Outcome(Number(n), pos + 4)
  {
    var v: nat := if n < 0 then n + 0x1_0000_0000 else n;
    WordRoundTrip(v);
    WordAhead(data, size, pos, ToLittleEndian(v, 4));
  }

  lemma I64IsReadBack(data: seq<byte>, size: nat, pos: nat, n: int)
    requires -0x8000_0000_0000_0000 <= n < 0x8000_0000_0000_0000
    requires HoldsAt(data, pos, ToLittleEndian(if n < 0 then n + 0x1_0000_0000_0000_0000 else n, 8))
    requires pos + 8 <= size <= |data|
    ensures CStep(data, size, pos, CallI64) == Outcome(Number(n), pos + 8)
  {
    var v: nat := if n < 0 then n + 0x1_0000_0000_0000_0000 else n;
    Pow2OfWords();
    LittleEndianRoundTrip(v, 8);
    WordAhead(data, size, pos, ToLittleEndian(v, 8));
  }

  /** Bytes that are missing at the end count as zeros. */
  lemma ShortWordIsFilled(data: seq<byte>, pos: nat, fill: seq<byte>, call: Call)
    requires pos <= |data| && (call.CallI32? || call.CallI64?) && forall k | 0 <= k < |fill| :: fill[k] == 0
    requires |data| + |fill| == pos + if call.CallI32? then 4 else 8
    ensures CStep(data, |data|, pos, call) == Outcome(CStep(data + fill, |data| + |fill|, pos, call).value, |data|)
  {
    var n := if call.CallI32? then 4 else 8;
    assert fill == Zeros(|fill|);
    assert Next(data + fill, |data| + |fill|, pos, n) == Next(data, |data|, pos, n) + Zeros(|fill|);
    PaddingIsNothing(Next(data, |data|, pos, n), |fill|);
  }

  // -------------------------------------------------------------- numbers in a range

  lemma LeftOver(x: nat, lo: int, hi: int) returns (q: nat)
    requires lo < hi
    ensures var v := lo + x % (hi - lo + 1); lo <= v <= hi && x + lo == q * (hi - lo + 1) + v
  {
    q := x / (hi - lo + 1);
  }

  /** Over a range C defines a number lies in it, whole ranges away from the word read; over an empty one it is the least. */
  lemma BoundedIsModulo(data: seq<byte>, size: nat, pos: nat, lo: int, hi: int) returns (q: nat)
    requires pos <= size <= |data|
    requires -0x8000_0000 <= lo < 0x8000_0000 && -0x8000_0000 <= hi < 0x8000_0000 && -0x8000_0000 <= hi - lo < 0x8000_0000
    ensures var ahead, r := Ahead(data, size, pos, 4), CStep(data, size, pos, CallBounded(lo, hi));
            && r.value.Number? && r.pos == pos + |ahead| && (hi <= lo ==> r.value.n == lo)
            && (lo < hi ==> lo <= r.value.n <= hi && LittleEndian(ahead) + lo == q * (hi - lo + 1) + r.value.n)
  {
    assert Ahead(data, size, pos, 4) == Next(data, size, pos, 4);
    q := 0;
    if lo < hi {
      q := LeftOver(Word32(Next(data, size, pos, 4)), lo, hi);
    }
  }

  /** The same for a length, over eight bytes. */
  lemma LengthIsModulo(data: seq<byte>, size: nat, pos: nat, lo: nat, hi: nat) returns (q: nat)
    requires pos <= size <= |data| && lo < 0x1_0000_0000_0000_0000 && hi < 0x1_0000_0000_0000_0000
    requires hi - lo < 0xFFFF_FFFF_FFFF_FFFF
    ensures var ahead, r := Ahead(data, size, pos, 8), CStep(data, size, pos, CallLength(lo, hi));
            && r.value.Number? && r.pos == pos + |ahead| && (hi <= lo ==> r.value.n == lo)
            && (lo < hi ==> lo <= r.value.n <= hi && LittleEndian(ahead) + lo == q * (hi - lo + 1) + r.value.n)
  {
    assert Ahead(data, size, pos, 8) == Next(data, size, pos, 8);
    q := 0;
    if lo < hi {
      q := LeftOver(Word64(Next(data, size, pos, 8)), lo, hi);
    }
  }

  /** Python's number over a range of any width, from at most four bytes; over an empty one it is the least and nothing is read. */
  lemma PyBoundedIsModulo(data: seq<byte>, pos: nat, lo: int, hi: int) returns (q: nat)
    requires pos <= |data|
    ensures var ahead, r := Ahead(data, |data|, pos, 4), PyStep(data, pos, CallBounded(lo, hi));
            && r.value.Number? && (hi <= lo ==> r == Outcome(Number(lo), pos))
            && (lo < hi ==> r.pos == pos + |ahead| && lo <= r.value.n <= hi
                            && LittleEndian(ahead) + lo == q * (hi - lo + 1) + r.value.n)
  {
    assert Ahead(data, |data|, pos, 4) == Next(data, |data|, pos, 4);
    PaddedIsNext(data, pos, 4);
    q := 0;
    if lo < hi {
      q := LeftOver(Word32(Padded(data, pos, 4)), lo, hi);
    }
  }

  /** Python reads a length as it reads any bounded number. */
  lemma PyLengthIsBounded(data: seq<byte>, pos: nat, lo: nat, hi: nat)
    requires pos <= |data|
    ensures PyStep(data, pos, CallLength(lo, hi)) == PyStep(data, pos, CallBounded(lo, hi))
  {
  }

  /** C leaves a bounded number undefined exactly when a bound or their difference is no signed word. */
  lemma BoundedIsUndefinedExactly(data: seq<byte>, size: nat, pos: nat, lo: int, hi: int)
    requires pos <= size <= |data|
    ensures CStep(data, size, pos, CallBounded(lo, hi)).value == Undefined
       <==> !(-2147483648 <= lo <= 2147483647 && -2147483648 <= hi <= 2147483647 && -2147483648 <= hi - lo <= 2147483647)
  {
  }

  /** And a length exactly when a bound is no word or the range is the one of all words. */
  lemma LengthIsUndefinedExactly(data: seq<byte>, size: nat, pos: nat, lo: nat, hi: nat)
    requires pos <= size <= |data|
    ensures CStep(data, size, pos, CallLength(lo, hi)).value == Undefined
       <==> lo > 18446744073709551615 || hi > 18446744073709551615 || (lo == 0 && hi == 18446744073709551615)
  {
  }

  // --------------------------------------------------------------------- strings

  /** A string is as long as its two length bytes say, at most `max`, and no longer than what is left. */
  lemma StringIsReadBack(data: seq<byte>, size: nat, pos: nat, max: nat, n: nat, length: nat)
    requires n < 0x1_0000 && HoldsAt(data, pos, ToLittleEndian(n, 2)) && pos + 2 <= size <= |data|
    requires length <= n && length <= max && pos + 2 + length <= size
    requires length == n || length == max || pos + 2 + length == size
    ensures CStep(data, size, pos, CallString(max)) == Outcome(Text(data[pos + 2..pos + 2 + length]), pos + 2 + length)
  {
    assert Pow2(16) == 0x1_0000 by { Pow2OfByte(); Pow2Adds(8, 8); }
    LittleEndianRoundTrip(n, 2);
    WordAhead(data, size, pos, ToLittleEndian(n, 2));
  }

  /** With less than two bytes left the string is empty and the input used up. */
  lemma CutStringIsEmpty(data: seq<byte>, size: nat, pos: nat, max: nat)
    requires pos <= size <= |data| && size < pos + 2
    ensures CStep(data, size, pos, CallString(max)) == Outcome(Text([]), size)
  {
  }
}
