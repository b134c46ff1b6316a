/**
 The comparison-operand ring: a shared map holding an armed word, a record count and fixed-size records of
 two length-prefixed operands.
 */
module CmpLog {
  import opened Bytes

  const CAP := 2048
  const OPMAX := 32
  const REC := 66
  const MAP_BYTES := 135176

  datatype Pair = Pair(a: seq<byte>, b: seq<byte>)

  function Truncate(s: seq<byte>): (t: seq<byte>)
    ensures |t| <= OPMAX
  {
    if |s| > OPMAX then s[..OPMAX] else s
  }

  function TruncatePair(p: Pair): Pair {
    Pair(Truncate(p.a), Truncate(p.b))
  }

  /** What the reader of the map sees: the armed word and the records counted. */
  datatype Ring = Ring(armed: seq<byte>, records: seq<Pair>)

  function Push(r: Ring, p: Pair): Ring {
    if |r.records| >= CAP then r else r.(records := r.records + [TruncatePair(p)])
  }

  predicate IsArmed(armed: seq<byte>) {
    exists k :: 0 <= k < |armed| && armed[k] != 0
  }

  lemma ArmedExactly(armed: seq<byte>)
    requires |armed| == 4
    ensures IsArmed(armed) <==> armed != [0, 0, 0, 0]
  {
    if !IsArmed(armed) {
      assert armed[0] == 0 && armed[1] == 0 && armed[2] == 0 && armed[3] == 0;
    }
  }

  // -------------------------------------------------------------- decoding the map

  function RecordStart(i: nat): nat { 8 + i * REC }

  /** The record behind `at`: two length bytes, 32 bytes for either operand. */
  function DecodeRecord(m: seq<byte>, at: nat): Pair
    requires at + REC <= |m|
  {
    Pair(m[at + 2..at + 2 + Min(m[at], OPMAX)], m[at + 34..at + 34 + Min(m[at + 1], OPMAX)])
  }

  function DecodeRecords(m: seq<byte>, n: nat): (rs: seq<Pair>)
    requires RecordStart(n) <= |m|
    ensures |rs| == n
  {
    if n == 0 then [] else DecodeRecords(m, n - 1) + [DecodeRecord(m, RecordStart(n - 1))]
  }

  lemma DecodeRecordFrame(m: seq<byte>, m': seq<byte>, at: nat)
    requires at + REC <= |m| == |m'| && m[at..at + REC] == m'[at..at + REC]
    ensures DecodeRecord(m, at) == DecodeRecord(m', at)
  {
    assert forall k | at <= k < at + REC :: m[k] == m[at..at + REC][k - at] == m'[k];
  }

  lemma {:induction false} DecodeRecordsFrame(m: seq<byte>, m': seq<byte>, n: nat)
    requires RecordStart(n) <= |m| == |m'| && m[8..RecordStart(n)] == m'[8..RecordStart(n)]
    ensures DecodeRecords(m, n) == DecodeRecords(m', n)
  {
    if n > 0 {
      var at := RecordStart(n - 1);
      var used, used' := m[8..RecordStart(n)], m'[8..RecordStart(n)];
      assert m[8..at] == used[..at - 8] && m'[8..at] == used'[..at - 8];
      assert m[at..at + REC] == used[at - 8..] && m'[at..at + REC] == used'[at - 8..];
      DecodeRecordsFrame(m, m', n - 1);
      DecodeRecordFrame(m, m', at);
    }
  }

  predicate IsMap(m: seq<byte>) {
    |m| == MAP_BYTES && LittleEndian(m[4..8]) <= CAP
  }

  /** The armed word, and as many records as the count says. */
  function RingOf(m: seq<byte>): Ring
    requires IsMap(m)
  {
    Ring(m[..4], DecodeRecords(m, LittleEndian(m[4..8])))
  }

  /** A record written behind `n` others, and then the count, leave `n` records and one more. */
  lemma AppendedRecord(before: seq<byte>, written: seq<byte>, after: seq<byte>, n: nat, p: Pair)
    requires RecordStart(n + 1) <= |before| == |written| == |after|
    requires before[..RecordStart(n)] == written[..RecordStart(n)]
    requires DecodeRecord(written, RecordStart(n)) == p
    requires written[8..] == after[8..] && written[..4] == after[..4]
    ensures DecodeRecords(after, n + 1) == DecodeRecords(before, n) + [p]
    ensures before[..4] == after[..4]
  {
    var at := RecordStart(n);
    SameInPrefix(before, written, at, 8, at);
    SameInSuffix(written, after, 8, 8, at);
    SameInSuffix(written, after, 8, at, at + REC);
    SameInPrefix(before, written, at, 0, 4);
    DecodeRecordsFrame(before, after, n);
    DecodeRecordFrame(written, after, at);
  }

  lemma CountedRecord(before: seq<byte>, written: seq<byte>, after: seq<byte>, n: nat, p: Pair)
    requires IsMap(before) && LittleEndian(before[4..8]) == n < CAP
    requires |before| == |written| == |after| && before[..RecordStart(n)] == written[..RecordStart(n)]
    requires DecodeRecord(written, RecordStart(n)) == p
    requires written[8..] == after[8..] && written[..4] == after[..4] && LittleEndian(after[4..8]) == n + 1
    ensures IsMap(after) && RingOf(after) == RingOf(before).(records := RingOf(before).records + [p])
  {
    AppendedRecord(before, written, after, n, p);
  }

  /** Lengths and first operand in `half`, then the second operand: the record holds both. */
  lemma RecordIsWritten(before: seq<byte>, half: seq<byte>, after: seq<byte>, off: nat, a: seq<byte>, b: seq<byte>)
    requires |before| == |half| == |after| && off + REC <= |before| && |a| <= OPMAX && |b| <= OPMAX
    requires half[..off + 2] == before[..off] + [|a|, |b|] && half[off + 2..off + 2 + |a|] == a
    requires after[..off + 34] == half[..off + 34] && after[off + 34..off + 34 + |b|] == b
    ensures after[..off] == before[..off] && DecodeRecord(after, off) == Pair(a, b)
  {
    SameInPrefix(after, half, off + 34, 0, off + 2);
    SameInPrefix(after, half, off + 34, off + 2, off + 2 + |a|);
    assert after[..off] == after[..off + 2][..off];
    assert after[off] == after[..off + 2][off] && after[off + 1] == after[..off + 2][off + 1];
  }

  // ------------------------------------------------------------------- the class

  class SharedRing {
    const shm: array<byte>

    ghost predicate Valid()
      reads shm
    {
      IsMap(shm[..])
    }

    ghost function Contents(): Ring
      requires Valid()
      reads shm
    {
      RingOf(shm[..])
    }

    constructor (shm: array<byte>)
      requires shm.Length == MAP_BYTES && shm[4..8] == [0, 0, 0, 0]
      ensures this.shm == shm && Valid() && Contents() == Ring(shm[..4], [])
    {
      this.shm := shm;
      LittleEndianRoundTrip(0, 4);
      assert ToLittleEndian(0, 4) == [0, 0, 0, 0];
      assert shm[..][4..8] == shm[4..8] && shm[..][..4] == shm[..4];
    }

    method PushPair(a: seq<byte>, b: seq<byte>)
      requires Valid()
      modifies shm
      ensures Valid() && Contents() == Push(old(Contents()), Pair(a, b))
    {
      var la := if |a| > OPMAX then OPMAX else |a|;
      var lb := if |b| > OPMAX then OPMAX else |b|;
      ghost var before := shm[..];
      assert before[4..8] == shm[4..8];
      var count := LittleEndian(shm[4..8]);
      if count >= CAP {
        return;
      }
      var off := 8 + count * REC;
      WriteRecord(off, a[..la], b[..lb]);
      ghost var written := shm[..];
      WriteCount(count + 1);
      assert a[..la] == Truncate(a) && b[..lb] == Truncate(b);
      CountedRecord(before, written, shm[..], count, TruncatePair(Pair(a, b)));
    }

    /** Stores the bytes of an operand; what stands in front of them and behind stays. */
    method WriteOperand(at: nat, bs: seq<byte>)
      requires at + |bs| <= shm.Length
      modifies shm
      ensures shm[..at] == old(shm[..at]) && shm[at..at + |bs|] == bs
    {
      for i := 0 to |bs|
        invariant shm[..at] == old(shm[..at]) && shm[at..at + i] == bs[..i]
      {
        shm[at + i] := bs[i];
      }
    }

    /** Fills one record; the bytes behind short operands keep what they held. */
    method WriteRecord(off: nat, a: seq<byte>, b: seq<byte>)
      requires shm.Length == MAP_BYTES && 8 <= off && off + REC <= MAP_BYTES && |a| <= OPMAX && |b| <= OPMAX
      modifies shm
      ensures shm[..][..off] == old(shm[..])[..off] && DecodeRecord(shm[..], off) == Pair(a, b)
    {
      ghost var before := shm[..];
      shm[off] := |a|;
      shm[off + 1] := |b|;
      WriteOperand(off + 2, a);
      ghost var half := shm[..];
      assert half[..off + 2] == before[..off] + [|a|, |b|];
      WriteOperand(off + 34, b);
      RecordIsWritten(before, half, shm[..], off, a, b);
    }

    method WriteCount(count: nat)
      requires shm.Length == MAP_BYTES && count <= CAP
      modifies shm
      ensures shm[..][..4] == old(shm[..])[..4] && shm[..][8..] == old(shm[..])[8..]
      ensures LittleEndian(shm[..][4..8]) == count
    {
      var raw := ToLittleEndian(count, 4);
      for i := 0 to 4
        invariant shm[4..4 + i] == raw[..i] && shm[..4] == old(shm[..4]) && shm[8..] == old(shm[8..])
      {
        shm[4 + i] := raw[i];
      }
      assert shm[..][4..8] == shm[4..8] == raw;
      assert shm[..][..4] == shm[..4] && old(shm[..])[..4] == old(shm[..4]);
      assert shm[..][8..] == shm[8..] && old(shm[..])[8..] == old(shm[8..]);
      WordRoundTrip(count);
    }

    /** A traced integer comparison of `width` bytes: logged when armed, unequal and both non-zero. */
    method CmpInt(a: nat, b: nat, width: nat)
      requires Valid()
      modifies shm
      ensures Valid()
      ensures var w := Min(width, 8);
              Contents() == if old(shm[..4]) == [0, 0, 0, 0] || a == b || a == 0 || b == 0 then old(Contents())
                            else Push(old(Contents()), Pair(ToLittleEndian(a, w), ToLittleEndian(b, w)))
    {
      ArmedExactly(shm[..4]);
      if !IsArmed(shm[..4]) {
        return;
      }
      if a == b || a == 0 || b == 0 {
        return;
      }
      var w := if width > 8 then 8 else width;
      PushPair(ToLittleEndian(a, w), ToLittleEndian(b, w));
    }
  }

  // ------------------------------------------------------------------ whole runs

  /** The ring after the pushes, in order, into one that holds no record. */
  function Run(armed: seq<byte>, ps: seq<Pair>): Ring {
    if ps == [] then Ring(armed, []) else Push(Run(armed, ps[..|ps| - 1]), ps[|ps| - 1])
  }

  lemma RunMore(armed: seq<byte>, ps: seq<Pair>, k: nat)
    requires k < |ps|
    ensures Run(armed, ps[..k + 1]) == Push(Run(armed, ps[..k]), ps[k])
  {
    assert ps[..k + 1][..k] == ps[..k];
  }

  /** Whatever pairs are pushed into an empty ring, one by one, it ends as the run says. */
  method PushAll(ring: SharedRing, ps: seq<Pair>)
    requires ring.Valid() && ring.Contents().records == []
    modifies ring.shm
    ensures ring.Valid() && ring.Contents() == Run(old(ring.Contents()).armed, ps)
  {
    ghost var armed := ring.Contents().armed;
    for k := 0 to |ps|
      invariant ring.Valid() && ring.Contents() == Run(armed, ps[..k])
    {
      RunMore(armed, ps, k);
      ring.PushPair(ps[k].a, ps[k].b);
    }
    assert ps[..|ps|] == ps;
  }

  /** `t` is `s` cut to its first 32 bytes. */
  predicate IsCut(t: seq<byte>, s: seq<byte>) {
    t <= s && |t| == Min(|s|, 32)
  }

  lemma {:induction false} RecordsOfRun(armed: seq<byte>, ps: seq<Pair>)
    ensures Run(armed, ps).armed == armed && |Run(armed, ps).records| == Min(|ps|, 2048)
    ensures forall k | 0 <= k < Min(|ps|, 2048) :: Run(armed, ps).records[k] == TruncatePair(ps[k])
  {
    if ps != [] {
      RecordsOfRun(armed, ps[..|ps| - 1]);
    }
  }

  /** Exactly the first 2048 pushes are there, in order, both operands cut to 32 bytes; the armed word is untouched. */
  lemma RingHoldsFirstPushes(armed: seq<byte>, ps: seq<Pair>)
    ensures Run(armed, ps).armed == armed && |Run(armed, ps).records| == Min(|ps|, 2048)
    ensures forall k | 0 <= k < Min(|ps|, 2048) ::
              IsCut(Run(armed, ps).records[k].a, ps[k].a) && IsCut(Run(armed, ps).records[k].b, ps[k].b)
  {
    RecordsOfRun(armed, ps);
  }

  // ------------------------------------------------------- the map as it is laid out

  /** A pair in 66 bytes: both lengths, then either operand and what fills it up to 32 bytes. */
  datatype Record = Record(pair: Pair, fillA: seq<byte>, fillB: seq<byte>)

  predicate IsRecord(r: Record) {
    |r.pair.a| + |r.fillA| == 32 && |r.pair.b| + |r.fillB| == 32
  }

  function EncodeRecord(r: Record): (bs: seq<byte>)
    requires IsRecord(r)
    ensures |bs| == 66
  {
    [|r.pair.a|, |r.pair.b|] + (r.pair.a + r.fillA) + (r.pair.b + r.fillB)
  }

  predicate AreRecords(rs: seq<Record>) {
    rs == [] || (IsRecord(rs[|rs| - 1]) && AreRecords(rs[..|rs| - 1]))
  }

  function EncodeRecords(rs: seq<Record>): (bs: seq<byte>)
    requires AreRecords(rs)
    ensures |bs| == 66 * |rs|
  {
    if rs == [] then [] else EncodeRecords(rs[..|rs| - 1]) + EncodeRecord(rs[|rs| - 1])
  }

  function Pairs(rs: seq<Record>): (ps: seq<Pair>) {
    if rs == [] then [] else Pairs(rs[..|rs| - 1]) + [rs[|rs| - 1].pair]
  }

  lemma EncodedRecordIsRead(m: seq<byte>, at: nat, r: Record)
    requires IsRecord(r) && HoldsAt(m, at, EncodeRecord(r))
    ensures DecodeRecord(m, at) == r.pair
  {
    var bs := EncodeRecord(r);
    assert forall k | 0 <= k < 66 :: m[at + k] == m[at..at + 66][k] == bs[k];
    assert bs[2..2 + |r.pair.a|] == r.pair.a && bs[34..34 + |r.pair.b|] == r.pair.b;
    assert m[at + 2..at + 2 + |r.pair.a|] == bs[2..2 + |r.pair.a|];
    assert m[at + 34..at + 34 + |r.pair.b|] == bs[34..34 + |r.pair.b|];
  }

  lemma {:induction false} EncodedRecordsAreRead(m: seq<byte>, rs: seq<Record>)
    requires AreRecords(rs) && HoldsAt(m, 8, EncodeRecords(rs))
    ensures DecodeRecords(m, |rs|) == Pairs(rs)
  {
    if rs != [] {
      var front, last := rs[..|rs| - 1], rs[|rs| - 1];
      HoldsSplit(m, 8, EncodeRecords(front), EncodeRecord(last));
      EncodedRecordsAreRead(m, front);
      EncodedRecordIsRead(m, 8 + 66 * |front|, last);
    }
  }

  lemma MapPieces(armed: seq<byte>, count: seq<byte>, records: seq<byte>, unused: seq<byte>)
    requires |armed| == |count| == 4
    ensures var m := armed + count + records + unused;
            |m| == 8 + |records| + |unused| && m[..4] == armed && m[4..8] == count && HoldsAt(m, 8, records)
  {
    var m := armed + count + records + unused;
    assert m[8..8 + |records|] == records;
  }

  /** A map as the engine lays it out gives its armed word and its records, in order. */
  lemma MapHoldsRing(armed: seq<byte>, rs: seq<Record>, unused: seq<byte>)
    requires |armed| == 4 && |rs| <= 2048 && AreRecords(rs) && 8 + 66 * |rs| + |unused| == 135176
    ensures var m := armed + ToLittleEndian(|rs|, 4) + EncodeRecords(rs) + unused;
            IsMap(m) && RingOf(m) == Ring(armed, Pairs(rs))
  {
    MapPieces(armed, ToLittleEndian(|rs|, 4), EncodeRecords(rs), unused);
    WordRoundTrip(|rs|);
    EncodedRecordsAreRead(armed + ToLittleEndian(|rs|, 4) + EncodeRecords(rs) + unused, rs);
  }

  /** An integer operand is read back modulo its width. */
  lemma {:induction false} OperandIsReadBack(a: nat, w: nat)
    ensures LittleEndian(ToLittleEndian(a, w)) == a % Pow2(8 * w)
  {
    if w > 0 {
      OperandIsReadBack(a / 256, w - 1);
      Pow2Adds(8, 8 * (w - 1));
      Pow2OfByte();
      ModOfProduct(a, Pow2(8 * (w - 1)));
    }
  }

  lemma ModOfProduct(a: nat, m: nat)
    requires m > 0
    ensures a % (256 * m) == a % 256 + 256 * ((a / 256) % m)
  {
    var q, r := (a / 256) / m, (a / 256) % m;
    var low := a % 256 + 256 * r;
    assert a / 256 == m * q + r;
    assert a == (256 * m) * q + low;
    ModIs(a, 256 * m, q, low);
  }

  lemma AtLeastOnce(n: nat, k: nat)
    requires k >= 1
    ensures n * k >= n
  {
  }

  lemma ModIs(a: nat, n: nat, q: nat, r: nat)
    requires n > 0 && a == n * q + r && r < n
    ensures a % n == r
  {
    var q' := a / n;
    if q > q' {
      AtLeastOnce(n, q - q');
    } else if q < q' {
      AtLeastOnce(n, q' - q);
    }
  }
}
