/** The C and the Python cursor over one input, and how far the second mirrors the first. */
module Cursors {
  import opened Bytes

  const I32_MAX := 0x7fff_ffff
  const I64_MAX := 0x7fff_ffff_ffff_ffff

  type i32 = n: int | -0x8000_0000 <= n <= 0x7fff_ffff

  function AsI32(v: nat): (r: i32)
    requires v < U32
  {
    if v > I32_MAX then v - U32 else v
  }

  function AsI64(v: nat): (r: int)
    requires v < U64
    ensures -0x8000_0000_0000_0000 <= r <= I64_MAX
  {
    if v > I64_MAX then v - U64 else v
  }

  function AsU32(n: i32): (r: nat)
    ensures r < U32
  {
    if n < 0 then n + U32 else n
  }

  function AsU64(n: int): nat
    requires -0x8000_0000_0000_0000 <= n <= I64_MAX
  {
    if n < 0 then n + U64 else n
  }

  // -------------------------------------------------------------- specification

  function Remaining(size: nat, pos: nat): nat { if size > pos then size - pos else 0 }

  /** The next bytes, at most `n` and no more than are left. */
  function Next(data: seq<byte>, size: nat, pos: nat, n: nat): (bs: seq<byte>)
    requires pos <= size <= |data|
    ensures |bs| == Min(n, size - pos)
  {
    data[pos..pos + Min(n, size - pos)]
  }

  lemma WordBound(bs: seq<byte>, n: nat)
    requires |bs| <= n
    ensures LittleEndian(bs) < Pow2(8 * n)
  {
    LittleEndianBound(bs);
    Pow2Grows(8 * |bs|, 8 * n);
  }

  /** The little-endian word of up to four bytes; missing high bytes count as zero. */
  function Word32(bs: seq<byte>): (v: nat)
    requires |bs| <= 4
    ensures v < U32
  {
    WordBound(bs, 4);
    Pow2OfWords();
    LittleEndian(bs)
  }

  function Word64(bs: seq<byte>): (v: nat)
    requires |bs| <= 8
    ensures v < U64
  {
    WordBound(bs, 8);
    Pow2OfWords();
    LittleEndian(bs)
  }

  /** Zero padding does not change a little-endian value. */
  lemma {:induction false} PaddingIsNothing(bs: seq<byte>, n: nat)
    ensures LittleEndian(bs + Zeros(n)) == LittleEndian(bs)
    decreases n
  {
    if n == 0 {
      assert bs + Zeros(0) == bs;
    } else {
      PaddingIsNothing(bs, n - 1);
      assert bs + Zeros(n) == bs + Zeros(n - 1) + [0];
      LittleEndianAppend(bs + Zeros(n - 1), 0);
    }
  }

  function Zeros(n: nat): (z: seq<byte>)
    ensures |z| == n
  {
    seq(n, _ => 0)
  }

  // --------------------------------------------------------- what calls return

  datatype Call = CallU8 | CallI32 | CallI64 | CallBounded(lo: int, hi: int) | CallLength(min: nat, max: nat)
                | CallString(limit: nat) | CallRest

  /** `Undefined` is what C promises of a call it leaves undefined: nothing. */
  datatype Value = Number(n: int) | Text(s: seq<byte>) | Undefined

  /** The value returned and the position left. */
  datatype Outcome = Outcome(value: Value, pos: nat)

  function CStringAt(data: seq<byte>, size: nat, pos: nat, max: nat): (r: (seq<byte>, nat))
    requires pos <= size <= |data|
    ensures pos <= r.1 <= size
  {
    var prefix := Next(data, size, pos, 2);
    var start := pos + |prefix|;
    var s := Next(data, size, start, Min(LittleEndian(prefix), max));
    (s, start + |s|)
  }

  lemma PrefixOfTwo(data: seq<byte>, size: nat, pos: nat)
    requires pos <= size <= |data|
    ensures var first := Next(data, size, pos, 1);
            var second := Next(data, size, pos + |first|, 1);
            && LittleEndian(first) + 256 * LittleEndian(second) == LittleEndian(Next(data, size, pos, 2))
            && |first| + |second| == |Next(data, size, pos, 2)|
  {
    var both := Next(data, size, pos, 2);
    if pos + 1 < size {
      assert both == [data[pos], data[pos + 1]] && both[1..] == [data[pos + 1]] && both[1..][1..] == [];
      assert Next(data, size, pos, 1) == [data[pos]] && Next(data, size, pos + 1, 1) == [data[pos + 1]];
      assert [data[pos]][1..] == [];
    } else if pos < size {
      assert both == [data[pos]] && Next(data, size, pos, 1) == [data[pos]] && Next(data, size, pos + 1, 1) == [];
    }
  }

  /** The word reduced into the range; the lower bound of an empty one. */
  function BoundedNumber(lo: int, hi: int, word: nat): (v: Value)
    ensures v.Number? && (lo <= hi ==> lo <= v.n <= hi)
  {
    Number(if hi <= lo then lo else lo + word % (hi - lo + 1))
  }

  predicate IsI32(n: int) { -0x8000_0000 <= n <= I32_MAX }

  /** C can pass these bounds, and `hi - lo` does not overflow a signed word. */
  predicate BoundedIsDefined(lo: int, hi: int) {
    IsI32(lo) && IsI32(hi) && IsI32(hi - lo)
  }

  /** C can pass these bounds, and they do not span every word, where it would divide by zero. */
  predicate LengthIsDefined(lo: nat, hi: nat) {
    lo < U64 && hi < U64 && hi - lo < U64 - 1
  }

  function CStep(data: seq<byte>, size: nat, pos: nat, call: Call): (r: Outcome)
    requires pos <= size <= |data|
    ensures pos <= r.pos <= size
  {
    match call
    case CallU8 => var bs := Next(data, size, pos, 1); Outcome(Number(LittleEndian(bs)), pos + |bs|)
    case CallI32 => var bs := Next(data, size, pos, 4); Outcome(Number(AsI32(Word32(bs))), pos + |bs|)
    case CallI64 => var bs := Next(data, size, pos, 8); Outcome(Number(AsI64(Word64(bs))), pos + |bs|)
    case CallBounded(lo, hi) =>
      var bs := Next(data, size, pos, 4);
      Outcome(if !BoundedIsDefined(lo, hi) then Undefined else BoundedNumber(lo, hi, Word32(bs)), pos + |bs|)
    case CallLength(lo, hi) =>
      var bs := Next(data, size, pos, 8);
      Outcome(if !LengthIsDefined(lo, hi) then Undefined else BoundedNumber(lo, hi, Word64(bs)), pos + |bs|)
    case CallString(max) => var (s, end) := CStringAt(data, size, pos, max); Outcome(Text(s), end)
    case CallRest => Outcome(Text(data[pos..size]), size)
  }

  /** What Python unpacks: the next bytes, filled up to `n` with zeros. */
  function Padded(data: seq<byte>, pos: nat, n: nat): (bs: seq<byte>)
    requires pos <= |data|
    ensures |bs| == n
  {
    var taken := Next(data, |data|, pos, n);
    taken + Zeros(n - |taken|)
  }

  function PyBounded(data: seq<byte>, pos: nat, lo: int, hi: int): (r: Outcome)
    requires pos <= |data|
    ensures pos <= r.pos <= |data|
  {
    if hi <= lo then Outcome(Number(lo), pos)
    else Outcome(Number(lo + Word32(Padded(data, pos, 4)) % (hi - lo + 1)), Min(pos + 4, |data|))
  }

  /** The Python cursor has no strings; a length is a bounded 32-bit number, and an empty range reads nothing. */
  function PyStep(data: seq<byte>, pos: nat, call: Call): (r: Outcome)
    requires pos <= |data| && !call.CallString?
    ensures pos <= r.pos <= |data|
  {
    match call
    case CallU8 => if pos == |data| then Outcome(Number(0), pos) else Outcome(Number(data[pos]), pos + 1)
    case CallI32 => Outcome(Number(AsI32(Word32(Padded(data, pos, 4)))), Min(pos + 4, |data|))
    case CallI64 => Outcome(Number(AsI64(Word64(Padded(data, pos, 8)))), Min(pos + 8, |data|))
    case CallBounded(lo, hi) => PyBounded(data, pos, lo, hi)
    case CallLength(lo, hi) => PyBounded(data, pos, lo, hi)
    case CallRest => Outcome(Text(data[pos..]), |data|)
  }

  /** Over a range that is not empty the unsigned arithmetic does not wrap. */
  lemma RangeIs(lo: i32, hi: i32)
    requires BoundedIsDefined(lo, hi) && lo < hi
    ensures (AsU32(hi - lo) + 1) % U32 == hi - lo + 1
  {
  }

  lemma TwoBytes(low: byte, high: byte)
    ensures BitOr(low, ShiftLeft32(high, 8)) == low + 256 * high
    ensures LittleEndian([low]) == low
  {
    assert [low][1..] == [] && [low] + [high] == [low, high] && [low, high][1..] == [high] && [high][1..] == [];
    OrNextByte32([low], high);
  }

  // ------------------------------------------------------------- the C cursor

  class CCursor {
    const data: seq<byte>
    const size: nat
    var pos: nat

    ghost predicate Valid()
      reads this
    {
      pos <= size <= |data|
    }

    constructor (data: seq<byte>, size: nat)
      requires size <= |data|
      ensures Valid() && this.data == data && this.size == size && pos == 0
    {
      this.data, this.size := data, size;
      pos := 0;
    }

    /** Opens a cursor over the argument bytes in front of a control tail. */
    constructor OpenData(data: seq<byte>, controlLength: nat)
      ensures Valid() && this.data == data && pos == 0
      ensures size == if |data| > controlLength then |data| - controlLength else |data|
    {
      this.data := data;
      size := if |data| > controlLength then |data| - controlLength else |data|;
      pos := 0;
    }

    function Left(): nat
      reads this
    {
      Remaining(size, pos)
    }

    method U8() returns (v: byte)
      requires Valid()
      modifies this
      ensures Valid() && Outcome(Number(v), pos) == CStep(data, size, old(pos), CallU8)
    {
      if Left() == 0 {
        assert Next(data, size, pos, 1) == [];
        return 0;
      }
      v := data[pos];
      assert Next(data, size, pos, 1) == [v] && LittleEndian([v]) == v by { assert [v][1..] == []; }
      pos := pos + 1;
    }

    method I32() returns (v: i32)
      requires Valid()
      modifies this
      ensures Valid() && Outcome(Number(v), pos) == CStep(data, size, old(pos), CallI32)
    {
      var word, i := 0, 0;
      while i < 4 && Left() > 0
        invariant i <= 4 && Valid() && pos == old(pos) + i
        invariant word == LittleEndian(data[old(pos)..pos])
      {
        OrNextByte32(data[old(pos)..pos], data[pos]);
        assert data[old(pos)..pos] + [data[pos]] == data[old(pos)..pos + 1];
        word := BitOr(word, ShiftLeft32(data[pos], i * 8));
        pos := pos + 1;
        i := i + 1;
      }
      assert data[old(pos)..pos] == Next(data, size, old(pos), 4);
      assert word == Word32(Next(data, size, old(pos), 4));
      v := AsI32(word);
    }

    method I64() returns (v: int)
      requires Valid()
      modifies this
      ensures Valid() && Outcome(Number(v), pos) == CStep(data, size, old(pos), CallI64)
    {
      var word, i := 0, 0;
      while i < 8 && Left() > 0
        invariant i <= 8 && Valid() && pos == old(pos) + i
        invariant word == LittleEndian(data[old(pos)..pos])
      {
        OrNextByte64(data[old(pos)..pos], data[pos]);
        assert data[old(pos)..pos] + [data[pos]] == data[old(pos)..pos + 1];
        word := BitOr(word, ShiftLeft64(data[pos], i * 8));
        pos := pos + 1;
        i := i + 1;
      }
      assert data[old(pos)..pos] == Next(data, size, old(pos), 8);
      assert word == Word64(Next(data, size, old(pos), 8));
      v := AsI64(word);
    }

    /** Four bytes are read even when the range is empty. `hi - lo` must not overflow. */
    method BoundedI32(lo: i32, hi: i32) returns (v: i32)
      requires Valid() && BoundedIsDefined(lo, hi)
      modifies this
      ensures Valid() && Outcome(Number(v), pos) == CStep(data, size, old(pos), CallBounded(lo, hi))
    {
      var range := (AsU32(hi - lo) + 1) % U32;
      var raw := I32();
      if hi <= lo {
        return lo;
      }
      RangeIs(lo, hi);
      v := lo + AsU32(raw) % range;
    }

    /** Eight bytes are read even when the range is empty; words wrap at 2^64. */
    method BoundedLength(lo: nat, hi: nat) returns (v: nat)
      requires Valid() && LengthIsDefined(lo, hi)
      modifies this
      ensures Valid() && Outcome(Number(v), pos) == CStep(data, size, old(pos), CallLength(lo, hi))
    {
      var range := (hi - lo + U64 + 1) % U64;
      var raw := I64();
      if hi <= lo {
        return lo;
      }
      v := lo + AsU64(raw) % range;
    }

    /** The sixteen-bit length in front of a string. */
    method Prefix() returns (prefix: nat)
      requires Valid()
      modifies this
      ensures Valid() && pos == old(pos) + |Next(data, size, old(pos), 2)|
      ensures prefix == LittleEndian(Next(data, size, old(pos), 2))
    {
      PrefixOfTwo(data, size, pos);
      var low := U8();
      var high := U8();
      TwoBytes(low, high);
      prefix := BitOr(low, ShiftLeft32(high, 8));
    }

    /** A sixteen-bit length, cut to `max` and to what is left, and that many bytes. */
    method CString(max: nat) returns (s: seq<byte>)
      requires Valid()
      modifies this
      ensures Valid() && Outcome(Text(s), pos) == CStep(data, size, old(pos), CallString(max))
    {
      var prefix := Prefix();
      var avail := Left();
      var want := prefix;
      if want > max {
        want := max;
      }
      if want > avail {
        want := avail;
      }
      s := data[pos..pos + want];
      pos := pos + want;
    }

    method DataSlice() returns (s: seq<byte>)
      requires Valid()
      modifies this
      ensures Valid() && Outcome(Text(s), pos) == CStep(data, size, old(pos), CallRest)
    {
      s := data[pos..pos + Left()];
      pos := size;
    }
  }

  // -------------------------------------------------------- the Python cursor

  class PyCursor {
    const data: seq<byte>
    var pos: nat

    constructor (data: seq<byte>)
      ensures this.data == data && pos == 0
    {
      this.data := data;
      pos := 0;
    }

    function Left(): nat
      reads this
    {
      if pos < |data| then |data| - pos else 0
    }

    method U8() returns (v: byte)
      requires pos <= |data|
      modifies this
      ensures Outcome(Number(v), pos) == PyStep(data, old(pos), CallU8)
    {
      if Left() == 0 {
        return 0;
      }
      v := data[pos];
      pos := pos + 1;
    }

    /** Up to `n` bytes, zero filled to `n`. */
    method Take(n: nat) returns (b: seq<byte>)
      requires pos <= |data|
      modifies this
      ensures b == Padded(data, old(pos), n) && pos == Min(old(pos) + n, |data|)
    {
      var avail := Min(n, Left());
      b := data[pos..pos + avail];
      pos := pos + avail;
      if avail < n {
        b := b + Zeros(n - avail);
      } else {
        assert b + Zeros(0) == b;
      }
    }

    method U32() returns (v: nat)
      requires pos <= |data|
      modifies this
      ensures pos == Min(old(pos) + 4, |data|) && v == Word32(Padded(data, old(pos), 4))
    {
      var b := Take(4);
      v := Word32(b);
    }

    method I32() returns (v: i32)
      requires pos <= |data|
      modifies this
      ensures Outcome(Number(v), pos) == PyStep(data, old(pos), CallI32)
    {
      var b := Take(4);
      v := AsI32(Word32(b));
    }

    method I64() returns (v: int)
      requires pos <= |data|
      modifies this
      ensures Outcome(Number(v), pos) == PyStep(data, old(pos), CallI64)
    {
      var b := Take(8);
      v := AsI64(Word64(b));
    }

    /** Nothing is read when the range is empty. */
    method BoundedI32(lo: int, hi: int) returns (v: int)
      requires pos <= |data|
      modifies this
      ensures Outcome(Number(v), pos) == PyStep(data, old(pos), CallBounded(lo, hi))
    {
      if hi <= lo {
        return lo;
      }
      var raw := U32();
      v := lo + raw % (hi - lo + 1);
    }

    method BoundedLength(lo: nat, hi: nat) returns (v: int)
      requires pos <= |data|
      modifies this
      ensures Outcome(Number(v), pos) == PyStep(data, old(pos), CallLength(lo, hi))
    {
      v := BoundedI32(lo, hi);
    }

    method Rest() returns (b: seq<byte>)
      requires pos <= |data|
      modifies this
      ensures Outcome(Text(b), pos) == PyStep(data, old(pos), CallRest)
    {
      b := data[pos..];
      pos := |data|;
    }
  }

  // ------------------------------------------------------------------ whole runs

  datatype Trace = Trace(values: seq<Value>, pos: nat)

  /** The values a run of calls returns, up to the first one that C leaves undefined. */
  function CRun(data: seq<byte>, size: nat, pos: nat, calls: seq<Call>): (t: Trace)
    requires pos <= size <= |data|
    ensures pos <= t.pos <= size
    decreases |calls|
  {
    if calls == [] then Trace([], pos)
    else
      var first := CStep(data, size, pos, calls[0]);
      if first.value.Undefined? then Trace([Undefined], pos)
      else
        var rest := CRun(data, size, first.pos, calls[1..]);
        Trace([first.value] + rest.values, rest.pos)
  }

  function PyRun(data: seq<byte>, pos: nat, calls: seq<Call>): (t: Trace)
    requires pos <= |data| && forall k | 0 <= k < |calls| :: !calls[k].CallString?
    ensures pos <= t.pos <= |data|
    decreases |calls|
  {
    if calls == [] then Trace([], pos)
    else
      var first := PyStep(data, pos, calls[0]);
      var rest := PyRun(data, first.pos, calls[1..]);
      Trace([first.value] + rest.values, rest.pos)
  }

  lemma SliceWithin(x: seq<byte>, y: seq<byte>, size: nat, p: nat, end: nat)
    requires p <= end <= size <= |x| && size <= |y| && x[..size] == y[..size]
    ensures x[p..end] == y[p..end]
  {
    assert x[p..end] == x[..size][p..end];
    assert y[p..end] == y[..size][p..end];
  }

  /** A step looks at nothing behind `size`. */
  lemma StepReadsArgumentsOnly(x: seq<byte>, y: seq<byte>, size: nat, pos: nat, call: Call)
    requires pos <= size <= |x| && size <= |y| && x[..size] == y[..size]
    ensures CStep(x, size, pos, call) == CStep(y, size, pos, call)
  {
    forall p: nat, n: nat | p <= size
      ensures Next(x, size, p, n) == Next(y, size, p, n)
    {
      SliceWithin(x, y, size, p, p + Min(n, size - p));
    }
    SliceWithin(x, y, size, pos, size);
  }

  /** Every run of reads over the argument bytes stays in front of the control tail and ignores what is in it. */
  lemma {:induction false} RunIgnoresControlTail(x: seq<byte>, y: seq<byte>, size: nat, pos: nat, calls: seq<Call>)
    requires pos <= size <= |x| && size <= |y| && x[..size] == y[..size]
    ensures CRun(x, size, pos, calls) == CRun(y, size, pos, calls)
    decreases |calls|
  {
    if calls != [] {
      StepReadsArgumentsOnly(x, y, size, pos, calls[0]);
      RunIgnoresControlTail(x, y, size, CStep(x, size, pos, calls[0]).pos, calls[1..]);
    }
  }

  /** The padded word Python unpacks and the word C puts together from the bytes left are the same. */
  lemma PaddedIsNext(data: seq<byte>, pos: nat, n: nat)
    requires pos <= |data|
    ensures LittleEndian(Padded(data, pos, n)) == LittleEndian(Next(data, |data|, pos, n))
  {
    var taken := Next(data, |data|, pos, n);
    PaddingIsNothing(taken, n - |taken|);
  }

  lemma OneByte(data: seq<byte>, pos: nat)
    requires pos <= |data|
    ensures LittleEndian(Next(data, |data|, pos, 1)) == if pos == |data| then 0 else data[pos]
  {
    if pos < |data| {
      assert Next(data, |data|, pos, 1) == [data[pos]] && [data[pos]][1..] == [];
    }
  }

  /** One word read by both: four bytes suffice for eight when no more are left. */
  lemma WordsMeet(data: seq<byte>, pos: nat)
    requires pos <= |data| <= pos + 4
    ensures Word32(Padded(data, pos, 4)) == Word64(Next(data, |data|, pos, 8))
  {
    PaddedIsNext(data, pos, 4);
    assert Next(data, |data|, pos, 4) == Next(data, |data|, pos, 8);
  }

  /**
   On a bounded number the two cursors agree exactly when C defines the call, and the range is not empty or
   nothing is left to read.
   */
  lemma BoundedAgreesExactly(data: seq<byte>, pos: nat, lo: int, hi: int)
    requires pos <= |data|
    ensures PyStep(data, pos, CallBounded(lo, hi)) == CStep(data, |data|, pos, CallBounded(lo, hi))
       <==> BoundedIsDefined(lo, hi) && (lo < hi || pos == |data|)
  {
    PaddedIsNext(data, pos, 4);
  }

  /**
   A length takes eight bytes in C and at most four in Python: they agree exactly when C defines the call, and
   nothing is left, or the range is not empty and at most four bytes are left.
   */
  lemma LengthAgreesExactly(data: seq<byte>, pos: nat, lo: nat, hi: nat)
    requires pos <= |data|
    ensures PyStep(data, pos, CallLength(lo, hi)) == CStep(data, |data|, pos, CallLength(lo, hi))
       <==> LengthIsDefined(lo, hi) && (pos == |data| || (lo < hi && |data| <= pos + 4))
  {
    if |data| <= pos + 4 {
      WordsMeet(data, pos);
    }
  }

  /** The calls on which the cursors agree at a place of an input. */
  predicate IsSharedAt(data: seq<byte>, pos: nat, call: Call) {
    match call
    case CallBounded(lo, hi) => BoundedIsDefined(lo, hi) && (lo < hi || pos == |data|)
    case CallLength(lo, hi) => LengthIsDefined(lo, hi) && (pos == |data| || (lo < hi && |data| <= pos + 4))
    case CallString(_) => false
    case _ => true
  }

  /** One call of the modelled kinds, strings apart: exactly these are answered alike. */
  lemma StepsAgreeExactly(data: seq<byte>, pos: nat, call: Call)
    requires pos <= |data| && !call.CallString?
    ensures PyStep(data, pos, call) == CStep(data, |data|, pos, call) <==> IsSharedAt(data, pos, call)
  {
    match call {
      case CallU8 => OneByte(data, pos);
      case CallI32 => PaddedIsNext(data, pos, 4);
      case CallI64 => PaddedIsNext(data, pos, 8);
      case CallBounded(lo, hi) => BoundedAgreesExactly(data, pos, lo, hi);
      case CallLength(lo, hi) => LengthAgreesExactly(data, pos, lo, hi);
      case CallRest => assert data[pos..] == data[pos..|data|];
    }
  }

  /** Every call of the run is shared at the place the run has reached. */
  predicate AllShared(data: seq<byte>, pos: nat, calls: seq<Call>)
    requires pos <= |data|
    decreases |calls|
  {
    calls == [] || (IsSharedAt(data, pos, calls[0]) && AllShared(data, CStep(data, |data|, pos, calls[0]).pos, calls[1..]))
  }

  /** A run whose calls are each shared where they are made gives the same values and stops at the same place. */
  lemma {:induction false} SharedRunsAgree(data: seq<byte>, pos: nat, calls: seq<Call>)
    requires pos <= |data| && (forall k | 0 <= k < |calls| :: !calls[k].CallString?) && AllShared(data, pos, calls)
    ensures PyRun(data, pos, calls) == CRun(data, |data|, pos, calls)
    decreases |calls|
  {
    if calls != [] {
      StepsAgreeExactly(data, pos, calls[0]);
      SharedRunsAgree(data, CStep(data, |data|, pos, calls[0]).pos, calls[1..]);
    }
  }

  /** The calls shared at every place of every input. */
  predicate IsShared(call: Call) {
    match call
    case CallBounded(lo, hi) => BoundedIsDefined(lo, hi) && lo < hi
    case CallLength(_, _) => false
    case CallString(_) => false
    case _ => true
  }

  lemma {:induction false} SharedEverywhere(data: seq<byte>, pos: nat, calls: seq<Call>)
    requires pos <= |data| && forall k | 0 <= k < |calls| :: IsShared(calls[k])
    ensures AllShared(data, pos, calls)
    decreases |calls|
  {
    if calls != [] {
      assert IsShared(calls[0]);
      SharedEverywhere(data, CStep(data, |data|, pos, calls[0]).pos, calls[1..]);
    }
  }

  /** Over any input, calls that are shared everywhere return the same values and stop at the same place. */
  lemma PythonMirrorsC(data: seq<byte>, pos: nat, calls: seq<Call>)
    requires pos <= |data| && forall k | 0 <= k < |calls| :: IsShared(calls[k]) && !calls[k].CallString?
    ensures PyRun(data, pos, calls) == CRun(data, |data|, pos, calls)
  {
    SharedEverywhere(data, pos, calls);
    SharedRunsAgree(data, pos, calls);
  }
}
