/**
 The op-program control channel: a count byte and five-byte slots at the very end of an input, apart from
 the argument bytes in front of them.
 */
module ControlChannel {
  import opened Bytes

  const SLOT := 5

  function ControlLength(maxSteps: nat): nat { 1 + maxSteps * SLOT }

  /** The argument bytes a cursor may read; an input with no room for them is all arguments. */
  function DataSize(size: nat, controlLength: nat): nat {
    if size > controlLength then size - controlLength else size
  }

  function StepCount(data: seq<byte>, maxSteps: nat): (n: nat)
    ensures n <= maxSteps
  {
    if maxSteps == 0 || |data| < ControlLength(maxSteps) then 0
    else data[|data| - ControlLength(maxSteps)] % (maxSteps + 1)
  }

  /** The four value bytes of the slot at `at`, or-ed together as the source does. */
  function RawValue(data: seq<byte>, at: nat): nat
    requires at + SLOT <= |data|
  {
    BitOr(BitOr(BitOr(data[at + 1], ShiftLeft32(data[at + 2], 8)), ShiftLeft32(data[at + 3], 16)),
          ShiftLeft32(data[at + 4], 24))
  }

  function Clamp(raw: nat, min: nat, max: nat): nat {
    if raw < min then min else if raw > max then max else raw
  }

  /** The boundary value a selector divisible by four picks, before clamping; words wrap at 2^32. */
  function Boundary(selector: byte, min: nat, max: nat): nat
    requires max > 0
  {
    match selector % 6
    case 0 => min
    case 1 => (min + 1) % U32
    case 2 => max - 1
    case 3 => max
    case 4 => 0
    case _ => 0xffff_ffff
  }

  /** Taking a value modulo the full range of words would divide by zero. */
  function Bounded(data: seq<byte>, at: nat, min: nat, max: nat): nat
    requires min < U32 && max < U32
    requires max <= min || (at + SLOT <= |data| && (data[at] % 4 == 0 || max - min < U32 - 1))
  {
    if max <= min then min
    else if data[at] % 4 == 0 then Clamp(Boundary(data[at], min, max), min, max)
    else min + RawValue(data, at) % (max - min + 1)
  }

  function SlotStart(size: nat, step: nat, maxSteps: nat): (at: nat)
    requires step < maxSteps && size >= ControlLength(maxSteps)
    ensures at + SLOT <= size
  {
    size - ControlLength(maxSteps) + 1 + step * SLOT
  }

  /** The operation of a step; 0 when there is none. */
  function Op(data: seq<byte>, step: nat, maxSteps: nat, opCount: nat): nat
    requires opCount < U32
  {
    if opCount == 0 || step >= maxSteps || |data| < ControlLength(maxSteps) then 0
    else Bounded(data, SlotStart(|data|, step, maxSteps), 0, opCount - 1)
  }

  // ------------------------------------------------------- what a value can be

  lemma RawIsLittleEndian(data: seq<byte>, at: nat)
    requires at + SLOT <= |data|
    ensures RawValue(data, at) == LittleEndian(data[at + 1..at + 5])
  {
    var bs := data[at + 1..at + 5];
    assert LittleEndian(bs[..1]) == bs[0] by { assert bs[..1][1..] == []; }
    assert bs[..1] + [bs[1]] == bs[..2] && bs[..2] + [bs[2]] == bs[..3] && bs[..3] + [bs[3]] == bs;
    OrNextByte32(bs[..1], bs[1]);
    OrNextByte32(bs[..2], bs[2]);
    OrNextByte32(bs[..3], bs[3]);
  }

  /** Values stay in their range. */
  lemma BoundedIsInRange(data: seq<byte>, at: nat, min: nat, max: nat)
    requires min <= max < U32 && at + SLOT <= |data| && (data[at] % 4 == 0 || max - min < U32 - 1)
    ensures min <= Bounded(data, at, min, max) <= max
  {
  }

  /**
   A selector divisible by four leaves an even remainder modulo six, so of the six boundary values only
   `min`, `max - 1` and 0 can be picked, and 0 is clamped to `min`: `min + 1` and `max` never are.
   */
  lemma BoundariesReached(data: seq<byte>, at: nat, min: nat, max: nat)
    requires min < max < U32 && at + SLOT <= |data| && data[at] % 4 == 0
    ensures Bounded(data, at, min, max) == if data[at] % 12 == 8 then max - 1 else min
  {
    assert data[at] % 12 == 0 || data[at] % 12 == 4 || data[at] % 12 == 8;
    assert data[at] % 6 == (data[at] % 12) % 6;
  }

  /** A number modulo another, told by what is left when the other is taken off `q` times. */
  lemma LeftOver(x: nat, n: nat) returns (q: nat)
    requires n > 0
    ensures x == q * n + x % n && x % n < n
  {
    q := x / n;
  }

  lemma ModuloIsTaken(data: seq<byte>, at: nat, min: nat, max: nat)
    requires min <= max < 0x1_0000_0000 && max - min < 0xFFFF_FFFF && at + 5 <= |data| && data[at] % 4 != 0
    ensures Bounded(data, at, min, max) == min + LittleEndian(data[at + 1..at + 5]) % (max - min + 1)
  {
    RawIsLittleEndian(data, at);
  }

  /** Any other selector takes the word behind it modulo the range: the value lies in it, whole ranges apart. */
  lemma BoundedIsModulo(data: seq<byte>, at: nat, min: nat, max: nat) returns (q: nat)
    requires min <= max < 0x1_0000_0000 && max - min < 0xFFFF_FFFF && at + 5 <= |data| && data[at] % 4 != 0
    ensures var v := Bounded(data, at, min, max);
            min <= v <= max && LittleEndian(data[at + 1..at + 5]) + min == q * (max - min + 1) + v
  {
    ModuloIsTaken(data, at, min, max);
    q := LeftOver(LittleEndian(data[at + 1..at + 5]), max - min + 1);
  }

  /** A range without two values gives its least, wherever it is read. */
  lemma NarrowRange(data: seq<byte>, at: nat, min: nat, max: nat)
    requires max <= min < 0x1_0000_0000
    ensures Bounded(data, at, min, max) == min
  {
  }

  /** The number of steps is the first byte of the block modulo one more than the most there can be. */
  lemma StepCountIsModulo(data: seq<byte>, maxSteps: nat) returns (q: nat)
    requires 1 + 5 * maxSteps <= |data|
    ensures var n := StepCount(data, maxSteps);
            n <= maxSteps && data[|data| - (1 + 5 * maxSteps)] == q * (maxSteps + 1) + n
  {
    if maxSteps == 0 {
      q := data[|data| - 1];
    } else {
      q := LeftOver(data[|data| - (1 + 5 * maxSteps)], maxSteps + 1);
    }
  }

  lemma OpIsBounded(data: seq<byte>, step: nat, maxSteps: nat, opCount: nat, at: nat)
    requires step < maxSteps && 0 < opCount < 0x1_0000_0000
    requires 1 + 5 * maxSteps <= |data| && at == |data| - (1 + 5 * maxSteps) + 1 + 5 * step
    ensures at + 5 <= |data| && Op(data, step, maxSteps, opCount) == Bounded(data, at, 0, opCount - 1)
  {
    SlotFits(step, maxSteps);
  }

  /** An operation is the word of its slot modulo the number of operations, or one of two boundaries of it. */
  lemma OpIsModulo(data: seq<byte>, step: nat, maxSteps: nat, opCount: nat, at: nat) returns (q: nat)
    requires step < maxSteps && 0 < opCount < 0x1_0000_0000
    requires 1 + 5 * maxSteps <= |data| && at == |data| - (1 + 5 * maxSteps) + 1 + 5 * step
    ensures at + 5 <= |data| && Op(data, step, maxSteps, opCount) < opCount
    ensures data[at] % 4 != 0 ==>
      LittleEndian(data[at + 1..at + 5]) == q * opCount + Op(data, step, maxSteps, opCount)
    ensures data[at] % 4 == 0 ==>
      Op(data, step, maxSteps, opCount) == if data[at] % 12 == 8 && opCount > 1 then opCount - 2 else 0
  {
    OpIsBounded(data, step, maxSteps, opCount, at);
    q := 0;
    if data[at] % 4 != 0 {
      q := BoundedIsModulo(data, at, 0, opCount - 1);
    } else if opCount > 1 {
      BoundariesReached(data, at, 0, opCount - 1);
    }
  }

  /** Without a whole control block, a slot for the step or an operation to choose, there is none. */
  lemma NoProgram(data: seq<byte>, step: nat, maxSteps: nat, opCount: nat)
    requires opCount < 0x1_0000_0000
    ensures |data| < 1 + 5 * maxSteps ==> StepCount(data, maxSteps) == 0
    ensures opCount == 0 || step >= maxSteps || |data| < 1 + 5 * maxSteps ==> Op(data, step, maxSteps, opCount) == 0
  {
  }

  // ----------------------------------------------------- the tail decides alone

  /** Two inputs end in the same control block. */
  ghost predicate SameTail(x: seq<byte>, y: seq<byte>, controlLength: nat) {
    |x| >= controlLength && |y| >= controlLength && x[|x| - controlLength..] == y[|y| - controlLength..]
  }

  lemma TailByte(x: seq<byte>, y: seq<byte>, controlLength: nat, k: nat)
    requires SameTail(x, y, controlLength) && k < controlLength
    ensures x[|x| - controlLength + k] == y[|y| - controlLength + k]
  {
    assert x[|x| - controlLength + k] == x[|x| - controlLength..][k];
    assert y[|y| - controlLength + k] == y[|y| - controlLength..][k];
  }

  lemma SlotFits(step: nat, maxSteps: nat)
    requires step < maxSteps
    ensures 1 + step * SLOT + SLOT <= ControlLength(maxSteps)
  {
  }

  /** Whatever stands in front, and however long it is, the program read is the same. */
  lemma TailDecidesProgram(x: seq<byte>, y: seq<byte>, maxSteps: nat, step: nat, opCount: nat)
    requires SameTail(x, y, ControlLength(maxSteps)) && opCount < U32
    ensures StepCount(x, maxSteps) == StepCount(y, maxSteps)
    ensures Op(x, step, maxSteps, opCount) == Op(y, step, maxSteps, opCount)
  {
    TailByte(x, y, ControlLength(maxSteps), 0);
    if step < maxSteps && opCount > 0 {
      var i, j := SlotStart(|x|, step, maxSteps), SlotStart(|y|, step, maxSteps);
      TailSlice(x, y, ControlLength(maxSteps), 1 + step * SLOT, SLOT);
      SameSlot(x, i, y, j, opCount);
    }
  }

  lemma TailSlice(x: seq<byte>, y: seq<byte>, controlLength: nat, k: nat, n: nat)
    requires SameTail(x, y, controlLength) && k + n <= controlLength
    ensures var i, j := |x| - controlLength + k, |y| - controlLength + k; x[i..i + n] == y[j..j + n]
  {
    SliceOfRest(x, |x| - controlLength, k, n);
    SliceOfRest(y, |y| - controlLength, k, n);
  }

  lemma SameSlot(x: seq<byte>, i: nat, y: seq<byte>, j: nat, opCount: nat)
    requires i + SLOT <= |x| && j + SLOT <= |y| && x[i..i + SLOT] == y[j..j + SLOT]
    requires 0 < opCount < U32
    ensures Bounded(x, i, 0, opCount - 1) == Bounded(y, j, 0, opCount - 1)
  {
    var slot := x[i..i + SLOT];
    assert x[i + 1..i + 5] == slot[1..] == y[j..j + SLOT][1..] == y[j + 1..j + 5];
    assert x[i] == slot[0] == y[j];
    RawIsLittleEndian(x, i);
    RawIsLittleEndian(y, j);
  }

  lemma SlotsAreApart(i: nat, j: nat)
    requires i != j
    ensures i * SLOT + SLOT <= j * SLOT || j * SLOT + SLOT <= i * SLOT
  {
  }

  /** Changing the bytes of slot `j` changes no other operation, and never the count. */
  lemma SlotDecidesItsOpOnly(x: seq<byte>, y: seq<byte>, maxSteps: nat, j: nat, step: nat, opCount: nat)
    requires |x| == |y| >= ControlLength(maxSteps) && j < maxSteps && step != j && opCount < U32
    requires var at := |x| - ControlLength(maxSteps) + 1 + j * SLOT;
             forall k | 0 <= k < |x| && !(at <= k < at + SLOT) :: x[k] == y[k]
    ensures StepCount(x, maxSteps) == StepCount(y, maxSteps)
    ensures Op(x, step, maxSteps, opCount) == Op(y, step, maxSteps, opCount)
  {
    if step < maxSteps && opCount > 0 {
      var at := |x| - ControlLength(maxSteps) + 1 + step * SLOT;
      SlotFits(step, maxSteps);
      SlotsAreApart(j, step);
      assert x[at..at + SLOT] == y[at..at + SLOT];
      SameSlot(x, at, y, at, opCount);
    }
  }

  // --------------------------------------------------------------- round trip

  /** An operation number in a slot: selector 1, then the value. */
  function EncodeOp(op: nat): (slot: seq<byte>)
    ensures |slot| == SLOT
  {
    [1] + ToLittleEndian(op, 4)
  }

  function EncodeOps(ops: seq<nat>): (slots: seq<byte>)
    ensures |slots| == SLOT * |ops|
  {
    if ops == [] then [] else EncodeOp(ops[0]) + EncodeOps(ops[1..])
  }

  /** A program as the engine lays it out; the slots beyond the program hold anything. */
  function EncodeProgram(ops: seq<nat>, maxSteps: nat, unused: seq<byte>): seq<byte>
    requires |ops| <= Min(maxSteps, 255) && |unused| == SLOT * (maxSteps - |ops|)
  {
    [|ops|] + (EncodeOps(ops) + unused)
  }

  lemma {:induction false} SlotOf(ops: seq<nat>, rest: seq<byte>, step: nat)
    requires step < |ops|
    ensures (EncodeOps(ops) + rest)[step * SLOT..step * SLOT + SLOT] == EncodeOp(ops[step])
  {
    var slots := EncodeOps(ops) + rest;
    var first, below := EncodeOp(ops[0]), EncodeOps(ops[1..]) + rest;
    assert slots == first + below;
    if step == 0 {
      assert slots[..SLOT] == first;
    } else {
      SlotOf(ops[1..], rest, step - 1);
      assert slots[SLOT + (step - 1) * SLOT..SLOT + step * SLOT] == below[(step - 1) * SLOT..step * SLOT];
    }
  }

  lemma EncodedOpIsRead(data: seq<byte>, at: nat, op: nat, opCount: nat)
    requires at + SLOT <= |data| && data[at..at + SLOT] == EncodeOp(op) && op < opCount < U32
    ensures Bounded(data, at, 0, opCount - 1) == op
  {
    var slot := data[at..at + SLOT];
    assert data[at] == slot[0];
    assert data[at + 1..at + 5] == slot[1..] == ToLittleEndian(op, 4);
    RawIsLittleEndian(data, at);
    WordRoundTrip(op);
    SmallModulo(op, opCount);
  }

  lemma SlotBehind(arguments: seq<byte>, count: byte, slots: seq<byte>, i: nat)
    requires i + SLOT <= |slots|
    ensures (arguments + ([count] + slots))[|arguments| + 1 + i..|arguments| + 1 + i + SLOT] == slots[i..i + SLOT]
  {
  }

  lemma CountIsRead(data: seq<byte>, maxSteps: nat, count: nat)
    requires |data| >= ControlLength(maxSteps) && count <= maxSteps
    requires data[|data| - ControlLength(maxSteps)] == count
    ensures StepCount(data, maxSteps) == count
  {
    SmallModulo(count, maxSteps + 1);
  }

  lemma ProgramLength(ops: seq<nat>, maxSteps: nat, unused: seq<byte>)
    requires |ops| <= Min(maxSteps, 255) && |unused| == SLOT * (maxSteps - |ops|)
    ensures |EncodeProgram(ops, maxSteps, unused)| == ControlLength(maxSteps)
    ensures EncodeProgram(ops, maxSteps, unused)[0] == |ops|
  {
  }

  lemma StepIsRead(data: seq<byte>, at: nat, step: nat, maxSteps: nat, op: nat, opCount: nat)
    requires step < maxSteps && |data| >= ControlLength(maxSteps) && op < opCount < U32
    requires at == SlotStart(|data|, step, maxSteps)
    requires data[at..at + SLOT] == EncodeOp(op)
    ensures Op(data, step, maxSteps, opCount) == op
  {
    EncodedOpIsRead(data, at, op, opCount);
  }

  lemma StepStands(arguments: seq<byte>, ops: seq<nat>, maxSteps: nat, unused: seq<byte>, step: nat)
    requires |ops| <= Min(maxSteps, 255) && |unused| == SLOT * (maxSteps - |ops|) && step < |ops|
    ensures var data := arguments + EncodeProgram(ops, maxSteps, unused);
            var at := |arguments| + 1 + step * SLOT;
            at + SLOT <= |data| && data[at..at + SLOT] == EncodeOp(ops[step])
  {
    SlotFits(step, |ops|);
    SlotOf(ops, unused, step);
    SlotBehind(arguments, |ops|, EncodeOps(ops) + unused, step * SLOT);
  }

  /** Behind any argument bytes a program is read back step by step, and so is its length. */
  lemma ProgramRoundTrip(arguments: seq<byte>, ops: seq<nat>, maxSteps: nat, unused: seq<byte>, opCount: nat, step: nat)
    requires |ops| <= Min(maxSteps, 255) && |unused| == SLOT * (maxSteps - |ops|) && opCount < U32
    requires forall k | 0 <= k < |ops| :: ops[k] < opCount
    ensures var data := arguments + EncodeProgram(ops, maxSteps, unused);
            && StepCount(data, maxSteps) == |ops|
            && (step < |ops| ==> Op(data, step, maxSteps, opCount) == ops[step])
  {
    var data := arguments + EncodeProgram(ops, maxSteps, unused);
    ProgramLength(ops, maxSteps, unused);
    assert |data| - ControlLength(maxSteps) == |arguments|;
    CountIsRead(data, maxSteps, |ops|);
    if step < |ops| {
      StepStands(arguments, ops, maxSteps, unused, step);
      StepIsRead(data, |arguments| + 1 + step * SLOT, step, maxSteps, ops[step], opCount);
    }
  }
}
