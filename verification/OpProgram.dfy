/** Arguments and program of one input: the reads of the one never touch the bytes of the other. */
module OpProgram {
  import opened Bytes
  import opened ControlChannel
  import opened Cursors

  /** What a harness reads with its argument cursor. */
  function ReadArguments(data: seq<byte>, maxSteps: nat, calls: seq<Call>): Trace {
    CRun(data, DataSize(|data|, ControlLength(maxSteps)), 0, calls)
  }

  /**
   With at least one argument byte, editing the arguments in any way, their length included, leaves the
   program as it was, and editing the program leaves every argument as it was.
   */
  lemma ArgumentsAndProgramAreSeparate(args: seq<byte>, args': seq<byte>, tail: seq<byte>, tail': seq<byte>,
                                       maxSteps: nat, step: nat, opCount: nat, calls: seq<Call>)
    requires |tail| == |tail'| == 1 + 5 * maxSteps && args != [] && opCount < U32
    ensures ReadArguments(args + tail, maxSteps, calls) == CRun(args, |args|, 0, calls)
    ensures ReadArguments(args + tail, maxSteps, calls) == ReadArguments(args + tail', maxSteps, calls)
    ensures ReadArguments(args + tail, maxSteps, calls).pos <= |args|
    ensures StepCount(args + tail, maxSteps) == StepCount(args' + tail, maxSteps)
    ensures Op(args + tail, step, maxSteps, opCount) == Op(args' + tail, step, maxSteps, opCount)
  {
    RunIgnoresControlTail(args + tail, args + tail', |args|, 0, calls);
    RunIgnoresControlTail(args + tail, args, |args|, 0, calls);
    assert (args + tail)[|args|..] == tail && (args' + tail)[|args'|..] == tail;
    TailDecidesProgram(args + tail, args' + tail, maxSteps, step, opCount);
  }

  /** An input with no room for arguments in front of a control block is all arguments. */
  lemma ShortInputIsAllArguments(data: seq<byte>, maxSteps: nat, calls: seq<Call>)
    requires |data| <= 1 + 5 * maxSteps
    ensures ReadArguments(data, maxSteps, calls) == CRun(data, |data|, 0, calls)
  {
  }

  /** An input that is a control block and nothing else is read twice: its count byte is also the first argument. */
  lemma BareControlBlockIsReadTwice(tail: seq<byte>, maxSteps: nat)
    requires |tail| == 1 + 5 * maxSteps && maxSteps > 0
    ensures ReadArguments(tail, maxSteps, [CallU8]) == Trace([Number(tail[0])], 1)
    ensures StepCount(tail, maxSteps) == tail[0] % (maxSteps + 1)
  {
    assert Next(tail, |tail|, 0, 1) == [tail[0]];
    assert LittleEndian([tail[0]]) == tail[0] by { assert [tail[0]][1..] == []; }
    assert [CallU8][1..] == [];
    assert [Number(tail[0])] + [] == [Number(tail[0])];
  }
}
