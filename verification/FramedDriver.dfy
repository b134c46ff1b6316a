/**
 The fork server's framed protocol: a ready byte, then for every length-prefixed input one run and one sync
 byte. Reads may come back short in any way; reads and writes may fail at any time.
 */
module FramedDriver {
  import opened Bytes

  const CAP := 0x100000

  datatype Event = Ready | Ran(input: seq<byte>) | Sync

  // -------------------------------------------------------------- specification

  function FrameLength(stream: seq<byte>): nat
    requires |stream| >= 4
  {
    Min(LittleEndian(stream[..4]), CAP)
  }

  /** The inputs a stream holds, read without interruption; a length above the cap is clamped. */
  function Decode(stream: seq<byte>): seq<seq<byte>>
    decreases |stream|
  {
    if |stream| < 4 || |stream| - 4 < FrameLength(stream) then []
    else
      var n := FrameLength(stream);
      [stream[4..4 + n]] + Decode(stream[4 + n..])
  }

  /** Each input is run and then acknowledged. */
  function Exchange(inputs: seq<seq<byte>>): seq<Event> {
    if inputs == [] then [] else Exchange(inputs[..|inputs| - 1]) + [Ran(inputs[|inputs| - 1]), Sync]
  }

  /** Every input is run once and acknowledged at once, in the order sent. */
  lemma {:induction false} ExchangeAlternates(inputs: seq<seq<byte>>, k: nat)
    requires k < |inputs|
    ensures |Exchange(inputs)| == 2 * |inputs|
    ensures Exchange(inputs)[2 * k] == Ran(inputs[k]) && Exchange(inputs)[2 * k + 1] == Sync
  {
    var before := inputs[..|inputs| - 1];
    if k < |before| {
      ExchangeAlternates(before, k);
    } else if |before| > 0 {
      ExchangeAlternates(before, 0);
    }
  }

  /** The exchange of one more input, as the driver writes it: the run, then the sync byte. */
  lemma ExchangeMore(inputs: seq<seq<byte>>, k: nat)
    requires k < |inputs|
    ensures [Ready] + Exchange(inputs[..k + 1]) == [Ready] + Exchange(inputs[..k]) + [Ran(inputs[k])] + [Sync]
  {
    assert inputs[..k + 1][..k] == inputs[..k];
  }

  // ---------------------------------------------------------------- the channels

  class Input {
    const stream: seq<byte>
    var pos: nat
    ghost var broken: bool

    ghost predicate Valid()
      reads this
    {
      pos <= |stream|
    }

    constructor (stream: seq<byte>)
      ensures this.stream == stream && pos == 0 && !broken && Valid()
    {
      this.stream := stream;
      pos := 0;
      broken := false;
    }

    /** One `read`: any positive number of the bytes asked for, none at the end, or a failure. */
    method Read(buf: array<byte>, at: nat, n: nat) returns (r: int)
      requires Valid() && n > 0 && at + n <= buf.Length
      modifies this, buf
      ensures Valid() && r <= n && buf[..at] == old(buf[..at]) && (old(broken) ==> broken)
      ensures r > 0 ==> pos == old(pos) + r && broken == old(broken) && buf[at..at + r] == stream[old(pos)..pos]
      ensures r <= 0 ==> pos == old(pos) && (broken || pos == |stream|)
    {
      if * {
        r := -1;
        broken := true;
      } else if pos == |stream| {
        r := 0;
      } else {
        var count: nat :| 0 < count <= n && count <= |stream| - pos;
        for i := 0 to count
          invariant pos == old(pos) && broken == old(broken)
          invariant buf[..at] == old(buf[..at]) && buf[at..at + i] == stream[pos..pos + i]
        {
          buf[at + i] := stream[pos + i];
          assert stream[pos..pos + i + 1] == stream[pos..pos + i] + [stream[pos + i]];
        }
        pos := pos + count;
        r := count;
      }
    }
  }

  class Control {
    ghost var events: seq<Event>
    ghost var broken: bool

    constructor ()
      ensures events == [] && !broken
    {
      events, broken := [], false;
    }

    /** One byte written, or a failure. */
    method Write(ghost e: Event) returns (ok: bool)
      modifies this
      ensures if ok then events == old(events) + [e] && broken == old(broken) else events == old(events) && broken
    {
      if * {
        ok := false;
        broken := true;
      } else {
        ok := true;
        events := events + [e];
      }
    }

    ghost method Note(e: Event)
      modifies this
      ensures events == old(events) + [e] && broken == old(broken)
    {
      events := events + [e];
    }
  }

  // ------------------------------------------------------------------- the driver

  /** Reads exactly `n` bytes however the reads are cut, or reports that they did not come. */
  method ReadN(input: Input, buf: array<byte>, n: nat) returns (ok: bool)
    requires input.Valid() && n <= buf.Length
    modifies input, buf
    ensures input.Valid() && old(input.pos) <= input.pos && (old(input.broken) ==> input.broken)
    ensures ok ==> input.broken == old(input.broken) && input.pos == old(input.pos) + n
                   && buf[..n] == input.stream[old(input.pos)..input.pos]
    ensures !ok ==> input.broken || |input.stream| - old(input.pos) < n
  {
    var got := 0;
    while got < n
      invariant got <= n && input.Valid() && input.pos == old(input.pos) + got
      invariant input.broken == old(input.broken)
      invariant buf[..got] == input.stream[old(input.pos)..input.pos]
    {
      ghost var before := buf[..got];
      var r := input.Read(buf, got, n - got);
      if r <= 0 {
        return false;
      }
      assert buf[..got + r] == before + buf[got..got + r];
      assert input.stream[old(input.pos)..input.pos]
          == input.stream[old(input.pos)..old(input.pos) + got] + input.stream[old(input.pos) + got..input.pos];
      got := got + r;
    }
    return true;
  }

  /** What taking one whole frame off the stream does to the inputs still to come. */
  lemma FrameTaken(stream: seq<byte>, pos: nat, len: nat, inputs: seq<seq<byte>>, k: nat)
    requires pos + 4 + len <= |stream| && len == FrameLength(stream[pos..])
    requires k <= |inputs| && inputs[k..] == Decode(stream[pos..])
    ensures k < |inputs| && inputs[k] == stream[pos + 4..pos + 4 + len]
    ensures inputs[k + 1..] == Decode(stream[pos + 4 + len..])
  {
    var rest := stream[pos..];
    SliceOfRest(stream, pos, 4, len);
    assert rest[4 + len..] == stream[pos + 4 + len..];
    assert Decode(rest) == [rest[4..4 + len]] + Decode(rest[4 + len..]);
    assert inputs[k] == inputs[k..][0] && inputs[k + 1..] == inputs[k..][1..];
  }

  /** Reads a length, clamps it, and reads that many bytes; fails only at a failure or past the last whole frame. */
  method ReadFrame(input: Input, lengthBytes: array<byte>, buf: array<byte>) returns (got: bool, len: nat)
    requires input.Valid() && !input.broken && lengthBytes.Length == 4 && buf.Length == CAP && lengthBytes != buf
    modifies input, lengthBytes, buf
    ensures input.Valid() && len <= CAP
    ensures got ==> !input.broken && input.pos == old(input.pos) + 4 + len
    ensures got ==> len == FrameLength(input.stream[old(input.pos)..])
    ensures got ==> buf[..len] == input.stream[old(input.pos) + 4..input.pos]
    ensures !got ==> input.broken || Decode(input.stream[old(input.pos)..]) == []
  {
    ghost var pos := input.pos;
    len := 0;
    got := ReadN(input, lengthBytes, 4);
    if !got {
      return;
    }
    len := LittleEndian(lengthBytes[..4]);
    if len > CAP {
      len := CAP;
    }
    assert len == FrameLength(input.stream[pos..]) by { SliceOfRest(input.stream, pos, 0, 4); }
    if len != 0 {
      got := ReadN(input, buf, len);
    }
  }

  /**
   The persistent loop. `k` inputs were run and acknowledged; one more was run when only its sync byte was
   lost. Nothing stops it before the end of the stream but a failed read or write.
   */
  method Serve(input: Input, control: Control) returns (status: int, ghost k: nat)
    requires input.Valid() && input.pos == 0 && !input.broken
    requires control.events == [] && !control.broken
    modifies input, control
    ensures k <= |Decode(input.stream)|
    ensures var inputs := Decode(input.stream);
            if status != 0 then control.events == [] && control.broken
            else if control.broken then k < |inputs| && control.events == [Ready] + Exchange(inputs[..k]) + [Ran(inputs[k])]
            else control.events == [Ready] + Exchange(inputs[..k]) && (input.broken || k == |inputs|)
  {
    k := 0;
    var written := control.Write(Ready);
    if !written {
      return 1, 0;
    }
    var lengthBytes, buf := new byte[4](_ => 0), new byte[CAP](_ => 0);
    ghost var inputs := Decode(input.stream);
    assert inputs[..0] == [] && [Ready] + [] == [Ready];
    assert input.stream[0..] == input.stream && inputs[0..] == inputs;
    while true
      invariant input.Valid() && !input.broken && !control.broken
      invariant k <= |inputs| && inputs[k..] == Decode(input.stream[input.pos..])
      invariant control.events == [Ready] + Exchange(inputs[..k])
      decreases |input.stream| - input.pos
    {
      ghost var pos := input.pos;
      var got, len := ReadFrame(input, lengthBytes, buf);
      if !got {
        break;
      }
      FrameTaken(input.stream, pos, len, inputs, k);
      control.Note(Ran(buf[..len]));
      var synced := control.Write(Sync);
      if !synced {
        break;
      }
      ExchangeMore(inputs, k);
      k := k + 1;
    }
    return 0, k;
  }

  // --------------------------------------------------------------- round trip

  function EncodeFrame(input: seq<byte>): seq<byte> {
    ToLittleEndian(|input|, 4) + input
  }

  function EncodeFrames(inputs: seq<seq<byte>>): seq<byte> {
    if inputs == [] then [] else EncodeFrame(inputs[0]) + EncodeFrames(inputs[1..])
  }

  /** The first frame of a stream is decoded up to the cap, and what is left of it is taken for more frames. */
  lemma FirstFrame(input: seq<byte>, rest: seq<byte>)
    requires |input| < U32
    ensures var n := Min(|input|, 0x100000);
            Decode(EncodeFrame(input) + rest) == [input[..n]] + Decode(input[n..] + rest)
  {
    var stream := EncodeFrame(input) + rest;
    var n := Min(|input|, 0x100000);
    WordRoundTrip(|input|);
    assert stream[..4] == ToLittleEndian(|input|, 4);
    assert stream[4..4 + n] == input[..n] && stream[4 + n..] == input[n..] + rest;
  }

  lemma WholeFirstFrame(input: seq<byte>, rest: seq<byte>)
    requires |input| <= 0x100000
    ensures Decode(EncodeFrame(input) + rest) == [input] + Decode(rest)
  {
    FirstFrame(input, rest);
    assert input[..|input|] == input && input[|input|..] + rest == rest;
  }

  lemma {:induction false} FramesDecode(inputs: seq<seq<byte>>, cut: seq<byte>)
    requires forall k | 0 <= k < |inputs| :: |inputs[k]| <= 0x100000
    ensures Decode(EncodeFrames(inputs) + cut) == inputs + Decode(cut)
  {
    if inputs == [] {
      assert [] + cut == cut && [] + Decode(cut) == Decode(cut);
    } else {
      var first, more := inputs[0], inputs[1..];
      Regroup(EncodeFrame(first), EncodeFrames(more), cut);
      WholeFirstFrame(first, EncodeFrames(more) + cut);
      FramesDecode(more, cut);
      Regroup([first], more, Decode(cut));
      assert [first] + more == inputs;
    }
  }

  /** A frame cut short anywhere yields nothing. */
  lemma CutFrameIsDropped(input: seq<byte>, k: nat)
    requires |input| < 0x1_0000_0000 && k < 4 + Min(|input|, 0x100000)
    ensures Decode(EncodeFrame(input)[..k]) == []
  {
    var cut := EncodeFrame(input)[..k];
    if k >= 4 {
      WordRoundTrip(|input|);
      assert cut[..4] == ToLittleEndian(|input|, 4);
    }
  }

  /** All the inputs sent come out, and a truncated last frame does not. */
  lemma FramesThenCutFrame(inputs: seq<seq<byte>>, last: seq<byte>, k: nat)
    requires forall i | 0 <= i < |inputs| :: |inputs[i]| <= 0x100000
    requires |last| < 0x1_0000_0000 && k < 4 + Min(|last|, 0x100000)
    ensures Decode(EncodeFrames(inputs) + EncodeFrame(last)[..k]) == inputs
  {
    FramesDecode(inputs, EncodeFrame(last)[..k]);
    CutFrameIsDropped(last, k);
    assert inputs + [] == inputs;
  }

  /** The protocol is transparent exactly for inputs within the cap: longer ones are cut, not drained. */
  lemma {:induction false} TransparentExactlyWithinCap(inputs: seq<seq<byte>>)
    requires forall k | 0 <= k < |inputs| :: |inputs[k]| < U32
    ensures Decode(EncodeFrames(inputs)) == inputs <==> forall k | 0 <= k < |inputs| :: |inputs[k]| <= 0x100000
  {
    if inputs != [] {
      var input, rest := inputs[0], inputs[1..];
      FirstFrame(input, EncodeFrames(rest));
      if |input| > 0x100000 {
        assert Decode(EncodeFrames(inputs))[0] == input[..0x100000] != input;
        assert |inputs[0]| > 0x100000;
      } else {
        WholeFirstFrame(input, EncodeFrames(rest));
        TransparentExactlyWithinCap(rest);
        assert inputs == [input] + rest;
        assert forall k | 0 <= k < |rest| :: rest[k] == inputs[k + 1];
        SameTail(input, Decode(EncodeFrames(rest)), rest);
        assert (forall k | 0 <= k < |rest| :: |rest[k]| <= 0x100000) ==> forall k | 0 < k < |inputs| :: inputs[k] == rest[k - 1];
      }
    }
  }

  lemma SameTail<T>(x: T, xs: seq<T>, ys: seq<T>)
    ensures [x] + xs == [x] + ys <==> xs == ys
  {
    if [x] + xs == [x] + ys {
      assert ([x] + xs)[1..] == xs && ([x] + ys)[1..] == ys;
    }
  }
}
