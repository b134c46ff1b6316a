/** The unsigned LEB128 numbers of section 7.6 of DWARF version 5, as Go's build information uses them. */
module Leb128 {
  import opened Common
  import opened Bytes

  datatype Number = Number(value: nat, read: nat)

  /** The index of the first byte, from `i` on, that does not announce another one. */
  function LastByte(data: seq<byte>, i: nat): (n: nat)
    requires i <= |data|
    ensures i <= n <= |data|
    ensures forall k | i <= k < n :: data[k] >= 128
    ensures n < |data| ==> data[n] < 128
    decreases |data| - i
  {
    if i < |data| && data[i] >= 128 then LastByte(data, i + 1) else i
  }

  function LebValue(bs: seq<byte>): nat {
    if bs == [] then 0 else bs[0] % 128 + 128 * LebValue(bs[1..])
  }

  /** What a u64 reader that takes at most ten bytes makes of any data. */
  function Uvarint(data: seq<byte>): (r: Option<Number>)
    ensures r.Some? ==> 0 < r.value.read <= |data|
  {
    var n := LastByte(data, 0);
    if n < |data| && n < 10 then Some(Number(LebValue(data[..n + 1]) % U64, n + 1)) else None
  }

  function EncodeUvarint(v: nat): (bs: seq<byte>)
    ensures |bs| > 0
  {
    if v < 128 then [v] else [v % 128 + 128] + EncodeUvarint(v / 128)
  }

  lemma SevenBits(n: nat)
    ensures Pow2(7 * (n + 1)) == 128 * Pow2(7 * n)
  {
    Pow2Adds(7 * n, 7);
    assert Pow2(7) == 128 by { Pow2Adds(4, 3); }
  }

  lemma {:induction false} LebAppend(bs: seq<byte>, b: byte)
    ensures LebValue(bs + [b]) == LebValue(bs) + (b % 128) * Pow2(7 * |bs|)
  {
    if bs == [] {
      assert bs + [b] == [b];
    } else {
      assert (bs + [b])[1..] == bs[1..] + [b];
      LebAppend(bs[1..], b);
      SevenBits(|bs| - 1);
      assert (b % 128) * (128 * Pow2(7 * (|bs| - 1))) == 128 * ((b % 128) * Pow2(7 * (|bs| - 1)));
    }
  }

  lemma {:induction false} LebBound(bs: seq<byte>)
    ensures LebValue(bs) < Pow2(7 * |bs|)
  {
    if bs != [] {
      LebBound(bs[1..]);
      SevenBits(|bs| - 1);
    }
  }

  lemma Pow2Of63()
    ensures Pow2(63) == 0x8000_0000_0000_0000
  {
    assert Pow2(8) == 256 by { Pow2Adds(4, 4); }
    Pow2Adds(8, 8);
    Pow2Adds(16, 16);
    Pow2Adds(16, 15);
    assert Pow2(15) == 0x8000 by { Pow2Adds(8, 7); Pow2Adds(4, 3); }
    Pow2Adds(32, 31);
  }

  lemma FitsWord(x: nat)
    requires x < U64
    ensures x % U64 == x
  {
  }

  lemma ShiftIsExact(x: nat, n: nat)
    requires x * Pow2(n) < U64
    ensures ShiftLeft64(x, n) == x * Pow2(n)
  {
    var shifted: nat := x * Pow2(n);
    assert shifted % U64 == shifted;
  }

  /** The first nine groups lie below bit 63, so nothing is cut off. */
  lemma OrLowGroup(bs: seq<byte>, b: byte, shift: nat)
    requires |bs| < 9 && shift == 7 * |bs|
    ensures BitOr(LebValue(bs), ShiftLeft64(b % 128, shift)) == LebValue(bs + [b]) < U64
  {
    LebBound(bs);
    LebBound(bs + [b]);
    LebAppend(bs, b);
    Pow2Of63();
    Pow2Grows(shift + 7, 63);
    ShiftIsExact(b % 128, shift);
    OrOfDisjointBits(LebValue(bs), b % 128, shift);
  }

  /** Of the tenth group a 64-bit word keeps one bit. */
  lemma KeepsOneBit(low: nat, group: nat)
    requires low < 0x8000_0000_0000_0000 && group < 128
    ensures (group * 0x8000_0000_0000_0000) % U64 == (group % 2) * 0x8000_0000_0000_0000
    ensures (low + group * 0x8000_0000_0000_0000) % U64 == low + (group % 2) * 0x8000_0000_0000_0000
  {
    assert group * 0x8000_0000_0000_0000 == (group / 2) * U64 + (group % 2) * 0x8000_0000_0000_0000;
  }

  lemma OrTenthGroup(bs: seq<byte>, b: byte, shift: nat)
    requires |bs| == 9 && shift == 7 * |bs|
    ensures BitOr(LebValue(bs), ShiftLeft64(b % 128, shift)) == LebValue(bs + [b]) % U64
  {
    LebBound(bs);
    LebAppend(bs, b);
    Pow2Of63();
    KeepsOneBit(LebValue(bs), b % 128);
    OrOfDisjointBits(LebValue(bs), (b % 128) % 2, 63);
  }

  /** One step of the reader's loop: the or of the shifted group is an addition modulo 2^64. */
  lemma OrNextGroup(bs: seq<byte>, b: byte, shift: nat)
    requires |bs| < 10 && shift == 7 * |bs|
    ensures var value := LebValue(bs + [b]);
            && BitOr(LebValue(bs), ShiftLeft64(b % 128, shift)) == value % U64
            && (|bs| < 9 ==> value % U64 == value)
  {
    if |bs| < 9 {
      OrLowGroup(bs, b, shift);
      FitsWord(LebValue(bs + [b]));
    } else {
      OrTenthGroup(bs, b, shift);
    }
  }

  method ReadUvarint(data: seq<byte>) returns (r: Option<Number>)
    ensures r == Uvarint(data)
  {
    var result, shift, index := 0, 0, 0;
    while index < |data|
      invariant 0 <= index <= |data| && shift == 7 * index && index <= 10
      invariant LastByte(data, index) == LastByte(data, 0)
      invariant index < 10 ==> result == LebValue(data[..index])
    {
      if index >= 10 {
        return None;
      }
      var b := data[index];
      OrNextGroup(data[..index], b, shift);
      assert data[..index] + [b] == data[..index + 1];
      result := BitOr(result, ShiftLeft64(b % 128, shift));
      if b < 128 {
        return Some(Number(result, index + 1));
      }
      shift := shift + 7;
      index := index + 1;
    }
    return None;
  }

  // -------------------------------------------------------------- round trip

  lemma {:induction false} EncodedShape(v: nat)
    ensures var bs := EncodeUvarint(v);
            && LebValue(bs) == v
            && bs[|bs| - 1] < 128 && forall k | 0 <= k < |bs| - 1 :: bs[k] >= 128
  {
    if v >= 128 {
      EncodedShape(v / 128);
      assert EncodeUvarint(v)[1..] == EncodeUvarint(v / 128);
    }
  }

  lemma {:induction false} EncodedLength(v: nat, groups: nat)
    requires groups > 0 && v < Pow2(7 * groups)
    ensures |EncodeUvarint(v)| <= groups
  {
    if v >= 128 {
      SevenBits(groups - 1);
      assert groups > 1 by { assert Pow2(0) == 1; }
      EncodedLength(v / 128, groups - 1);
    }
  }

  lemma {:induction false} LastByteIs(data: seq<byte>, i: nat, n: nat)
    requires i <= n < |data| && data[n] < 128 && forall k | i <= k < n :: data[k] >= 128
    ensures LastByte(data, i) == n
    decreases n - i
  {
    if i < n {
      LastByteIs(data, i + 1, n);
    }
  }

  lemma LengthOfWord(v: nat)
    requires v < U64
    ensures |EncodeUvarint(v)| <= 10
  {
    Pow2Of63();
    SevenBits(9);
    EncodedLength(v, 10);
  }

  /** One to ten groups are read modulo 2^64, whatever follows, and so are superfluous and overlong ones. */
  lemma GroupsAreRead(bs: seq<byte>, rest: seq<byte>)
    requires 0 < |bs| <= 10 && bs[|bs| - 1] < 128 && forall k | 0 <= k < |bs| - 1 :: bs[k] >= 128
    ensures Uvarint(bs + rest) == Some(Number(LebValue(bs) % 0x1_0000_0000_0000_0000, |bs|))
  {
    var data := bs + rest;
    assert forall k | 0 <= k < |bs| :: data[k] == bs[k];
    assert data[..|bs|] == bs;
    LastByteIs(data, 0, |bs| - 1);
  }

  /** Without a last group among the first ten bytes there is no number. */
  lemma EndlessIsRefused(data: seq<byte>)
    requires forall k | 0 <= k < Min(|data|, 10) :: data[k] >= 128
    ensures Uvarint(data) == None
  {
  }

  /** Every u64 is written in at most ten bytes and read back from them, whatever follows. */
  lemma UvarintRoundTrip(v: nat, rest: seq<byte>)
    requires v < 0x1_0000_0000_0000_0000
    ensures |EncodeUvarint(v)| <= 10
    ensures Uvarint(EncodeUvarint(v) + rest) == Some(Number(v, |EncodeUvarint(v)|))
  {
    EncodedShape(v);
    LengthOfWord(v);
    GroupsAreRead(EncodeUvarint(v), rest);
    SmallModulo(v, U64);
  }
}
