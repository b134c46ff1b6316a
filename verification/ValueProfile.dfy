/**
 The value-profile token log: a shared map holding a 32-bit cursor and a run of length-prefixed tokens,
 and two tables the process keeps to avoid logging a token again.
 */
module ValueProfile {
  import opened Common
  import opened Bytes

  const MAP_BYTES := 65536
  const TABLE := 4096

  type Token = seq<byte>

  // ------------------------------------------------------------------- hashing

  function HashStep(h: bv64, b: byte): bv64 {
    (h ^ (b as bv64)) * 1099511628211
  }

  function HashFrom(h: bv64, data: Token): bv64
    decreases |data|
  {
    if data == [] then h else HashFrom(HashStep(h, data[0]), data[1..])
  }

  function Hash(data: Token): bv64
    requires |data| <= 8
  {
    HashFrom(1469598103934665603, data) ^ (|data| as bv64)
  }

  function Slot(h: bv64): (s: nat)
    ensures s < TABLE
  {
    (h & 4095) as nat
  }

  // -------------------------------------------------------------- specification

  predicate AllZero(data: Token) {
    forall k | 0 <= k < |data| :: data[k] == 0
  }

  /** The tokens the log is for: one to eight bytes, not all zero. */
  predicate IsToken(data: Token) {
    0 < |data| <= 8 && !AllZero(data)
  }

  datatype Profile = Profile(log: seq<byte>, seen1: seq<bool>, seenN: seq<bv64>)
  {
    predicate Sized() {
      |seen1| == 256 && |seenN| == TABLE
    }
  }

  predicate HasRoom(log: seq<byte>, data: Token) {
    |log| + 1 + |data| + 4 <= MAP_BYTES
  }

  function Log(log: seq<byte>, data: Token): seq<byte> {
    if HasRoom(log, data) && |data| < 256 then log + [|data|] + data else log
  }

  predicate Seen(p: Profile, data: Token)
    requires p.Sized() && IsToken(data)
  {
    if |data| == 1 then p.seen1[data[0]] else p.seenN[Slot(Hash(data))] == Hash(data)
  }

  function Mark(p: Profile, data: Token): (q: Profile)
    requires p.Sized() && IsToken(data)
    ensures q.Sized() && q.log == p.log
  {
    if |data| == 1 then p.(seen1 := p.seen1[data[0] := true])
    else p.(seenN := p.seenN[Slot(Hash(data)) := Hash(data)])
  }

  function Add(p: Profile, data: Token): (q: Profile)
    requires p.Sized()
    ensures q.Sized()
  {
    if !IsToken(data) || Seen(p, data) then p
    else Mark(p, data).(log := Log(p.log, data))
  }

  function Empty(): (p: Profile)
    ensures p.Sized()
  {
    Profile([], seq(256, _ => false), seq(TABLE, _ => 0))
  }

  /** The profile after the tokens of `adds` were added in order to an empty one. */
  function Run(adds: seq<Token>): (p: Profile)
    ensures p.Sized()
  {
    if adds == [] then Empty() else Add(Run(adds[..|adds| - 1]), adds[|adds| - 1])
  }

  predicate IsMap(m: seq<byte>) {
    |m| == MAP_BYTES && 4 + LittleEndian(m[..4]) <= MAP_BYTES
  }

  /** The bytes behind the cursor word, as far as the cursor says. */
  function LogOf(m: seq<byte>): seq<byte>
    requires IsMap(m)
  {
    m[4..4 + LittleEndian(m[..4])]
  }

  /** A length and a token written at the cursor, and then the cursor, leave a longer log. */
  lemma AppendedToken(before: seq<byte>, written: seq<byte>, after: seq<byte>, c: nat, n: byte, data: Token)
    requires IsMap(before) && LittleEndian(before[..4]) == c && 4 + c + 1 + |data| <= MAP_BYTES
    requires |written| == |after| == MAP_BYTES && before[..4 + c] == written[..4 + c]
    requires written[4 + c] == n && written[5 + c..5 + c + |data|] == data
    requires after[4..] == written[4..] && LittleEndian(after[..4]) == c + 1 + |data|
    ensures IsMap(after) && LogOf(after) == LogOf(before) + [n] + data
  {
    SameInPrefix(before, written, 4 + c, 4, 4 + c);
    SameInSuffix(after, written, 4, 4, 5 + c + |data|);
    assert written[4..5 + c + |data|] == written[4..4 + c] + [written[4 + c]] + written[5 + c..5 + c + |data|];
  }

  // ------------------------------------------------------------------ the class

  class SharedLog {
    const shm: array<byte>
    const seen1: array<bool>
    const seenN: array<bv64>

    ghost predicate Valid()
      reads shm
    {
      IsMap(shm[..]) && seen1.Length == 256 && seenN.Length == TABLE
    }

    ghost function Contents(): Profile
      requires Valid()
      reads shm, seen1, seenN
    {
      Profile(LogOf(shm[..]), seen1[..], seenN[..])
    }

    /** A fresh map is zero filled, as are the static tables. */
    constructor ()
      ensures Valid() && fresh(shm) && fresh(seen1) && fresh(seenN)
      ensures Contents() == Empty()
    {
      shm := new byte[MAP_BYTES](_ => 0);
      seen1 := new bool[256](_ => false);
      seenN := new bv64[TABLE](_ => 0);
      new;
      assert LittleEndian(shm[..][..4]) == 0 by {
        assert shm[..][..4] == [0, 0, 0, 0];
        assert LittleEndian([0, 0, 0, 0]) == 0 by { assert [0, 0, 0, 0] == ToLittleEndian(0, 4); LittleEndianRoundTrip(0, 4); }
      }
      assert Contents() == Empty();
    }

    /** Whether every byte is zero, with the source's early exit. */
    method IsZero(data: Token) returns (z: bool)
      ensures z == AllZero(data)
    {
      z := true;
      for i := 0 to |data|
        invariant z && forall k | 0 <= k < i :: data[k] == 0
      {
        if data[i] != 0 {
          return false;
        }
      }
    }

    method ComputeHash(data: Token) returns (h: bv64)
      requires |data| <= 8
      ensures h == Hash(data)
    {
      h := 1469598103934665603;
      for i := 0 to |data|
        invariant HashFrom(h, data[i..]) == HashFrom(1469598103934665603, data)
      {
        assert data[i..][1..] == data[i + 1..];
        h := HashStep(h, data[i]);
      }
      h := h ^ (|data| as bv64);
    }

    method AddToken(data: Token)
      requires Valid()
      modifies shm, seen1, seenN
      ensures Valid() && Contents() == Add(old(Contents()), data)
    {
      if |data| == 0 || |data| > 8 {
        return;
      }
      var z := IsZero(data);
      if z {
        return;
      }
      if |data| == 1 {
        if seen1[data[0]] {
          return;
        }
        seen1[data[0]] := true;
      } else {
        var h := ComputeHash(data);
        var slot := Slot(h);
        if seenN[slot] == h {
          return;
        }
        seenN[slot] := h;
      }
      assert Contents() == Mark(old(Contents()), data);
      WriteToken(data);
    }

    /** Appends the token behind the cursor, if there is room, and moves the cursor past it. */
    method WriteToken(data: Token)
      requires Valid() && |data| <= 8
      modifies shm
      ensures Valid() && LogOf(shm[..]) == Log(LogOf(old(shm[..])), data)
    {
      ghost var before := shm[..];
      assert before[..4] == shm[..4];
      var c := LittleEndian(shm[..4]);
      if c + 1 + |data| + 4 > MAP_BYTES {
        return;
      }
      WriteBody(4 + c, data);
      ghost var written := shm[..];
      WriteCursor(c + 1 + |data|);
      AppendedToken(before, written, shm[..], c, |data|, data);
    }

    /** Stores the length and the bytes of the token at `w`. */
    method WriteBody(w: nat, data: Token)
      requires |data| <= 8 && w + 1 + |data| <= shm.Length
      modifies shm
      ensures shm[..][..w] == old(shm[..])[..w] && shm[w] == |data| && shm[..][w + 1..w + 1 + |data|] == data
    {
      shm[w] := |data|;
      for i := 0 to |data|
        invariant shm[..w] == old(shm[..w]) && shm[w] == |data|
        invariant shm[w + 1..w + 1 + i] == data[..i]
      {
        shm[w + 1 + i] := data[i];
        assert shm[w + 1..w + 1 + i] == data[..i];
      }
      assert shm[..][..w] == shm[..w] && old(shm[..])[..w] == old(shm[..w]);
      assert shm[..][w + 1..w + 1 + |data|] == shm[w + 1..w + 1 + |data|] == data;
    }

    /** Stores the cursor in the first four bytes, least significant first. */
    method WriteCursor(c: nat)
      requires shm.Length == MAP_BYTES && 4 + c <= MAP_BYTES
      modifies shm
      ensures shm[..][4..] == old(shm[..])[4..] && LittleEndian(shm[..][..4]) == c
    {
      var raw := ToLittleEndian(c, 4);
      for i := 0 to 4
        invariant shm[..i] == raw[..i] && shm[4..] == old(shm[4..])
      {
        shm[i] := raw[i];
      }
      assert shm[..][..4] == shm[..4] == raw;
      assert shm[..][4..] == shm[4..] && old(shm[..])[4..] == old(shm[4..]);
      WordRoundTrip(c);
    }
  }

  // --------------------------------------------------------------- reading it back

  function Encode(ts: seq<Token>): seq<byte>
    requires forall k | 0 <= k < |ts| :: IsToken(ts[k])
  {
    if ts == [] then []
    else
      assert IsToken(ts[0]);
      [|ts[0]|] + ts[0] + Encode(ts[1..])
  }

  /** The only way to cut a log into tokens. */
  function Parse(log: seq<byte>): (r: Option<seq<Token>>)
    ensures r.Some? ==> forall k | 0 <= k < |r.value| :: IsToken(r.value[k])
    decreases |log|
  {
    if log == [] then Some([])
    else
      var n := log[0];
      if n + 1 > |log| || !IsToken(log[1..n + 1]) then None
      else
        match Parse(log[n + 1..])
        case None => None
        case Some(rest) => Some([log[1..n + 1]] + rest)
  }

  lemma FirstParsed(log: seq<byte>)
    requires log != [] && log[0] + 1 <= |log| && IsToken(log[1..log[0] + 1]) && Parse(log[log[0] + 1..]).Some?
    ensures Parse(log) == Some([log[1..log[0] + 1]] + Parse(log[log[0] + 1..]).value)
  {
  }

  lemma FirstOfLonger(log: seq<byte>, n: byte, tail: seq<byte>)
    requires log != [] && log[0] + 1 <= |log|
    ensures var longer := log + [n] + tail;
            longer[0] == log[0] && longer[1..log[0] + 1] == log[1..log[0] + 1]
            && longer[log[0] + 1..] == log[log[0] + 1..] + [n] + tail
  {
  }

  lemma ParseOne(log: seq<byte>, data: Token)
    requires IsToken(data) && log == [|data|] + data
    ensures Parse(log) == Some([data])
  {
    assert log[0] == |data| && log[1..log[0] + 1] == data && log[log[0] + 1..] == [];
    FirstParsed(log);
    assert [data] + [] == [data];
  }

  lemma {:induction false} ParseAppend(log: seq<byte>, data: Token)
    requires Parse(log).Some? && IsToken(data)
    ensures Parse(log + [|data|] + data) == Some(Parse(log).value + [data])
    decreases |log|
  {
    if log == [] {
      assert log + [|data|] + data == [|data|] + data && [] + [data] == [data];
      ParseOne([|data|] + data, data);
    } else {
      var first, rest := log[1..log[0] + 1], log[log[0] + 1..];
      FirstOfLonger(log, |data|, data);
      ParseAppend(rest, data);
      FirstParsed(log);
      FirstParsed(log + [|data|] + data);
      Regroup([first], Parse(rest).value, [data]);
    }
  }

  /** Parsing is the inverse of writing tokens one behind the other, so it is unique. */
  lemma {:induction false} ParseInvertsEncode(ts: seq<Token>)
    requires forall k | 0 <= k < |ts| :: IsToken(ts[k])
    ensures Parse(Encode(ts)) == Some(ts)
  {
    if ts != [] {
      var log := Encode(ts);
      assert log[1..|ts[0]| + 1] == ts[0] && log[|ts[0]| + 1..] == Encode(ts[1..]);
      ParseInvertsEncode(ts[1..]);
      assert [ts[0]] + ts[1..] == ts;
    }
  }

  // ------------------------------------------------------------------ whole runs

  /** `xs` is what is left of `ys` when some elements are dropped. */
  ghost predicate Subsequence<T>(xs: seq<T>, ys: seq<T>) {
    if xs == [] then true
    else if ys == [] then false
    else if xs[|xs| - 1] == ys[|ys| - 1] && Subsequence(xs[..|xs| - 1], ys[..|ys| - 1]) then true
    else Subsequence(xs, ys[..|ys| - 1])
  }

  /** How often the token is logged. */
  function Count(ts: seq<Token>, t: Token): nat {
    if ts == [] then 0 else Count(ts[..|ts| - 1], t) + if ts[|ts| - 1] == t then 1 else 0
  }

  /** What one add does to the tokens logged. */
  lemma AddedTokens(p: Profile, data: Token)
    requires p.Sized() && Parse(p.log).Some?
    ensures var q := Add(p, data);
            Parse(q.log) == Some(Parse(p.log).value
                                 + if IsToken(data) && !Seen(p, data) && HasRoom(p.log, data) then [data] else [])
  {
    assert Parse(p.log).value + [] == Parse(p.log).value;
    if IsToken(data) {
      ParseAppend(p.log, data);
    }
  }

  /** After any run the log fits its map, parses, and holds tokens that were added, in the order added. */
  lemma {:induction false} LogIsWellFormed(adds: seq<Token>)
    ensures var log := Run(adds).log;
            |log| <= 65532 && Parse(log).Some? && Subsequence(Parse(log).value, adds)
  {
    if adds != [] {
      var before, data := adds[..|adds| - 1], adds[|adds| - 1];
      LogIsWellFormed(before);
      var ts := Parse(Run(before).log).value;
      AddedTokens(Run(before), data);
      assert ts + [] == ts;
      assert (ts + [data])[..|ts|] == ts;
    }
  }

  /** The log of a run begins with the log of every shorter run. */
  lemma {:induction false} LogOnlyGrows(adds: seq<Token>, k: nat)
    requires k <= |adds|
    ensures Run(adds[..k]).log <= Run(adds).log
  {
    if k == |adds| {
      assert adds[..k] == adds;
    } else {
      var before := adds[..|adds| - 1];
      assert before[..k] == adds[..k];
      LogOnlyGrows(before, k);
    }
  }

  /** One-byte tokens are logged at most once, and only when their flag is set. */
  lemma {:induction false} SingleBytesAreLoggedOnce(adds: seq<Token>, b: byte)
    ensures Parse(Run(adds).log).Some?
    ensures Count(Parse(Run(adds).log).value, [b]) <= if Run(adds).seen1[b] then 1 else 0
  {
    LogIsWellFormed(adds);
    if adds != [] {
      var before, data := adds[..|adds| - 1], adds[|adds| - 1];
      SingleBytesAreLoggedOnce(before, b);
      AddedTokens(Run(before), data);
      var ts := Parse(Run(before).log).value;
      assert ts + [] == ts;
      assert (ts + [data])[..|ts|] == ts;
    }
  }

  /** Adding a token again at once changes nothing, whether or not it was logged. */
  lemma AddingAgainChangesNothing(p: Profile, data: Token)
    requires p.Sized()
    ensures Add(Add(p, data), data) == Add(p, data)
  {
  }

  // ------------------------------------------------- how far de-duplication goes

  /** The hash of the last longer token added whose hash falls into the slot; 0 if there was none. */
  function LastHash(adds: seq<Token>, slot: nat): bv64 {
    if adds == [] then 0
    else
      var data := adds[|adds| - 1];
      if IsToken(data) && |data| > 1 && Slot(Hash(data)) == slot then Hash(data) else LastHash(adds[..|adds| - 1], slot)
  }

  lemma {:induction false} SlotsHoldLastHash(adds: seq<Token>, slot: nat)
    requires slot < TABLE
    ensures Run(adds).seenN[slot] == LastHash(adds, slot)
  {
    if adds != [] {
      SlotsHoldLastHash(adds[..|adds| - 1], slot);
    }
  }

  /** A longer token is logged, however often before, exactly when its slot's last hash is not its own and there is room. */
  lemma LongerTokenIsLoggedExactly(adds: seq<Token>, data: Token)
    requires IsToken(data) && |data| > 1
    ensures Parse(Run(adds).log).Some? && Parse(Run(adds + [data]).log).Some?
    ensures var before, after := Parse(Run(adds).log).value, Parse(Run(adds + [data]).log).value;
            after == if LastHash(adds, Slot(Hash(data))) != Hash(data) && HasRoom(Run(adds).log, data)
                     then before + [data] else before
  {
    LogIsWellFormed(adds);
    SlotsHoldLastHash(adds, Slot(Hash(data)));
    AddedTokens(Run(adds), data);
    assert (adds + [data])[..|adds|] == adds;
    assert Parse(Run(adds).log).value + [] == Parse(Run(adds).log).value;
  }

  // --------------------------------------------------- the log, told by history

  /** Everything folded in, told from the last byte back. */
  function Folded<A>(mix: (A, byte) -> A, start: A, data: Token): A {
    if data == [] then start else mix(Folded(mix, start, data[..|data| - 1]), data[|data| - 1])
  }

  lemma {:induction false} FoldedFirst<A>(mix: (A, byte) -> A, start: A, b: byte, data: Token)
    ensures Folded(mix, start, [b] + data) == Folded(mix, mix(start, b), data)
  {
    if data == [] {
      assert [b] + data == [b] && [b][..0] == [];
    } else {
      assert ([b] + data)[..|data|] == [b] + data[..|data| - 1];
      FoldedFirst(mix, start, b, data[..|data| - 1]);
    }
  }

  lemma {:induction false} HashIsFolded(h: bv64, data: Token)
    ensures HashFrom(h, data) == Folded(HashStep, h, data)
    decreases |data|
  {
    if data != [] {
      HashIsFolded(HashStep(h, data[0]), data[1..]);
      assert data == [data[0]] + data[1..];
      FoldedFirst(HashStep, h, data[0], data[1..]);
    }
  }

  /** The hash of a token: its bytes folded in from the first to the last, and then its length. */
  lemma HashIsFingerprint(data: Token)
    requires |data| <= 8
    ensures Hash(data) == Folded(HashStep, 1469598103934665603, data) ^ (|data| as bv64)
  {
    HashIsFolded(1469598103934665603, data);
  }

  /** The slot is the hash modulo 4096. */
  lemma SlotIsModulo(h: bv64)
    ensures Slot(h) == (h % 4096) as nat
  {
    assert h & 4095 == h % 4096;
  }

  /** Something to log: one to eight bytes, one of them not 0. */
  predicate Counts(data: Token) {
    1 <= |data| <= 8 && exists k | 0 <= k < |data| :: data[k] != 0
  }

  /** Whether a token that counts was logged before, as far as the process knows. */
  predicate Known(adds: seq<Token>, data: Token)
    requires |data| <= 8
  {
    if |data| == 1 then data in adds
    else LastHash(adds, Slot(Hash(data))) == Hash(data)
  }

  /** The log that the tokens of `adds` leave, told by the tokens alone. */
  function Logged(adds: seq<Token>): seq<byte> {
    if adds == [] then []
    else
      var before, front, data := Logged(adds[..|adds| - 1]), adds[..|adds| - 1], adds[|adds| - 1];
      if Counts(data) && !Known(front, data) && |before| + |data| + 5 <= 65536 then before + [|data|] + data
      else before
  }

  /** The flag of a byte tells whether its token was added. */
  lemma {:induction false} FlagsTellBytes(adds: seq<Token>, b: byte)
    requires b != 0
    ensures Run(adds).seen1[b] <==> [b] in adds
  {
    if adds != [] {
      var front, data := adds[..|adds| - 1], adds[|adds| - 1];
      assert adds == front + [data];
      FlagsTellBytes(front, b);
      if data == [b] {
        assert data[0] != 0;
      } else if IsToken(data) && |data| == 1 {
        assert data == [data[0]];
      }
    }
  }

  lemma CountsIsToken(data: Token)
    ensures Counts(data) <==> IsToken(data)
  {
  }

  lemma KnownIsSeen(adds: seq<Token>, data: Token)
    requires IsToken(data)
    ensures Seen(Run(adds), data) <==> Known(adds, data)
  {
    if |data| == 1 {
      assert data == [data[0]];
      FlagsTellBytes(adds, data[0]);
    } else {
      SlotsHoldLastHash(adds, Slot(Hash(data)));
    }
  }

  /** After any run the log is exactly the one told by the tokens added. */
  lemma {:induction false} LogIsHistory(adds: seq<Token>)
    ensures Run(adds).log == Logged(adds)
  {
    if adds != [] {
      var front, data := adds[..|adds| - 1], adds[|adds| - 1];
      LogIsHistory(front);
      CountsIsToken(data);
      if IsToken(data) {
        KnownIsSeen(front, data);
      }
    }
  }

  /** A byte other than 0 is logged exactly if it was never added before and there is room for it. */
  lemma SingleByteIsLoggedExactly(adds: seq<Token>, b: byte)
    requires b != 0
    ensures Run(adds + [[b]]).log
         == if [b] !in adds && |Run(adds).log| + 6 <= 65536 then Run(adds).log + [1, b] else Run(adds).log
  {
    LogIsHistory(adds);
    LogIsHistory(adds + [[b]]);
    assert (adds + [[b]])[..|adds|] == adds;
    assert [b][0] != 0;
    assert Run(adds).log + [1] + [b] == Run(adds).log + [1, b];
  }

  /** A map is read as the engine lays it out: the cursor in four bytes, then the log, then anything. */
  lemma MapHoldsLog(log: seq<byte>, unused: seq<byte>)
    requires 4 + |log| + |unused| == 65536
    ensures var m := ToLittleEndian(|log|, 4) + log + unused; IsMap(m) && LogOf(m) == log
  {
    var m := ToLittleEndian(|log|, 4) + log + unused;
    assert m[..4] == ToLittleEndian(|log|, 4);
    WordRoundTrip(|log|);
    assert m[4..4 + |log|] == log;
  }

  lemma HashFromStep(h: bv64, b: byte, rest: Token)
    ensures HashFrom(h, [b] + rest) == HashFrom(HashStep(h, b), rest)
  {
    assert ([b] + rest)[1..] == rest;
  }

  lemma TwoSteps(a: byte, b: byte)
    ensures HashFrom(1469598103934665603, [a, b]) == HashStep(HashStep(1469598103934665603, a), b)
  {
    HashFromStep(1469598103934665603, a, [b]);
    HashFromStep(HashStep(1469598103934665603, a), b, []);
    assert [a] + [b] == [a, b] && [b] + [] == [b];
  }

  lemma FirstCollidingSteps()
    ensures HashStep(HashStep(1469598103934665603, 1), 215) == 0x9a64f800c544a243
  {
    assert HashStep(1469598103934665603, 1) == 0x44bd2ad473ccf5e6;
    assert HashStep(0x44bd2ad473ccf5e6, 215) == 0x9a64f800c544a243;
  }

  lemma FirstCollidingHash()
    ensures Hash([1, 215]) == 0x9a64f800c544a241 && Slot(0x9a64f800c544a241) == 577
  {
    FirstCollidingSteps();
    TwoSteps(1, 215);
  }

  lemma SecondCollidingSteps()
    ensures HashStep(HashStep(1469598103934665603, 8), 0) == 0x9a844300c55fd243
  {
    assert HashStep(1469598103934665603, 8) == 0x44bd33d473cd0531;
    assert HashStep(0x44bd33d473cd0531, 0) == 0x9a844300c55fd243;
  }

  lemma SecondCollidingHash()
    ensures Hash([8, 0]) == 0x9a844300c55fd241 && Slot(0x9a844300c55fd241) == 577
  {
    SecondCollidingSteps();
    TwoSteps(8, 0);
  }

  predicate IsOdd(k: nat) { k > 0 && !IsOdd(k - 1) }

  function Turn(a: Token, b: Token, k: nat): Token {
    if IsOdd(k) then a else b
  }

  /** The two tokens added in turns, `a` first, `k` in all. */
  function Turns(a: Token, b: Token, k: nat): (ts: seq<Token>)
    ensures |ts| == k
  {
    if k == 0 then [] else Turns(a, b, k - 1) + [Turn(a, b, k)]
  }

  /** What the tokens take in a log, with their lengths. */
  function LogSize(ts: seq<Token>): nat {
    if ts == [] then 0 else LogSize(ts[..|ts| - 1]) + 1 + |ts[|ts| - 1]|
  }

  lemma SizeAppend(ts: seq<Token>, t: Token)
    ensures LogSize(ts + [t]) == LogSize(ts) + 1 + |t|
  {
    assert (ts + [t])[..|ts|] == ts;
  }

  lemma {:induction false} SizePrepend(t: Token, ts: seq<Token>)
    ensures LogSize([t] + ts) == 1 + |t| + LogSize(ts)
  {
    if ts == [] {
      assert [t] + ts == [] + [t];
      SizeAppend([], t);
    } else {
      var front, last := ts[..|ts| - 1], ts[|ts| - 1];
      assert [t] + ts == ([t] + front) + [last];
      SizeAppend([t] + front, last);
      SizePrepend(t, front);
    }
  }

  lemma {:induction false} ParsedSize(log: seq<byte>)
    requires Parse(log).Some?
    ensures LogSize(Parse(log).value) == |log|
    decreases |log|
  {
    if log != [] {
      var n := log[0];
      ParsedSize(log[n + 1..]);
      SizePrepend(log[1..n + 1], Parse(log[n + 1..]).value);
    }
  }

  lemma TurnHash(a: Token, b: Token, k: nat, ha: bv64, hb: bv64)
    requires |a| <= 8 && |b| <= 8 && ha == Hash(a) && hb == Hash(b)
    ensures Hash(Turn(a, b, k)) == if IsOdd(k) then ha else hb
  {
  }

  /** The slot the two tokens share holds the hash of the one added last. */
  lemma LastTurn(a: Token, b: Token, k: nat, ha: bv64, hb: bv64, slot: nat)
    requires IsToken(a) && IsToken(b) && |a| > 1 && |b| > 1
    requires ha == Hash(a) && hb == Hash(b) && Slot(ha) == slot && Slot(hb) == slot
    ensures LastHash(Turns(a, b, k), slot) == if k == 0 then 0 else if IsOdd(k) then ha else hb
  {
    if k > 0 {
      var ts := Turns(a, b, k);
      assert ts[|ts| - 1] == Turn(a, b, k);
      TurnHash(a, b, k, ha, hb);
    }
  }

  /** So the token whose turn is next finds another hash than its own. */
  lemma NextTurn(a: Token, b: Token, k: nat, ha: bv64, hb: bv64, slot: nat)
    requires IsToken(a) && IsToken(b) && |a| > 1 && |b| > 1
    requires ha == Hash(a) && hb == Hash(b) && Slot(ha) == slot && Slot(hb) == slot && ha != hb && ha != 0
    ensures LastHash(Turns(a, b, k), slot) != Hash(Turn(a, b, k + 1))
    ensures Slot(Hash(Turn(a, b, k + 1))) == slot
  {
    TurnHash(a, b, k + 1, ha, hb);
    LastTurn(a, b, k, ha, hb, slot);
  }

  lemma OneMoreTurn(adds: seq<Token>, data: Token)
    requires IsToken(data) && |data| > 1 && LastHash(adds, Slot(Hash(data))) != Hash(data)
    requires Parse(Run(adds).log) == Some(adds) && LogSize(adds) + 1 + |data| + 4 <= MAP_BYTES
    ensures Parse(Run(adds + [data]).log) == Some(adds + [data])
  {
    ParsedSize(Run(adds).log);
    LongerTokenIsLoggedExactly(adds, data);
  }

  lemma {:induction false} TurnsFit(a: Token, b: Token, k: nat)
    requires IsToken(a) && IsToken(b) && |a| > 1 && |b| > 1
    requires Slot(Hash(a)) == Slot(Hash(b)) && Hash(a) != Hash(b) && Hash(a) != 0
    requires LogSize(Turns(a, b, k)) + 4 <= MAP_BYTES
    ensures Parse(Run(Turns(a, b, k)).log) == Some(Turns(a, b, k))
  {
    if k > 0 {
      var before, data := Turns(a, b, k - 1), Turn(a, b, k);
      SizeAppend(before, data);
      TurnsFit(a, b, k - 1);
      NextTurn(a, b, k - 1, Hash(a), Hash(b), Slot(Hash(a)));
      OneMoreTurn(before, data);
    }
  }

  /** Two longer tokens that take turns in one slot are all logged exactly as long as the map has room for them. */
  lemma TakingTurns(a: Token, b: Token, k: nat)
    requires IsToken(a) && IsToken(b) && |a| > 1 && |b| > 1
    requires Slot(Hash(a)) == Slot(Hash(b)) && Hash(a) != Hash(b) && Hash(a) != 0
    ensures Parse(Run(Turns(a, b, k)).log) == Some(Turns(a, b, k)) <==> LogSize(Turns(a, b, k)) <= 65532
  {
    LogIsWellFormed(Turns(a, b, k));
    ParsedSize(Run(Turns(a, b, k)).log);
    if LogSize(Turns(a, b, k)) + 4 <= MAP_BYTES {
      TurnsFit(a, b, k);
    }
  }

  lemma ThreeTurns(a: Token, b: Token)
    ensures Turns(a, b, 3) == [a, b, a] && LogSize(Turns(a, b, 3)) == 3 + |a| + |b| + |a|
  {
    assert Turns(a, b, 1) == [] + [a] && Turns(a, b, 2) == [a] + [b] && Turns(a, b, 3) == [a, b] + [a];
    SizeAppend([], a);
    SizeAppend([a], b);
    SizeAppend([a, b], a);
  }

  /** The first of two tokens that share a slot is logged a second time. */
  lemma ThreeTurnsAreLogged(a: Token, b: Token)
    requires IsToken(a) && IsToken(b) && |a| > 1 && |b| > 1
    requires Slot(Hash(a)) == Slot(Hash(b)) && Hash(a) != Hash(b) && Hash(a) != 0
    ensures Parse(Run([a, b, a]).log) == Some([a, b, a])
  {
    ThreeTurns(a, b);
    TakingTurns(a, b, 3);
  }

  lemma CollidingHashes(a: Token, b: Token)
    requires a == [1, 215] && b == [8, 0]
    ensures Slot(Hash(a)) == Slot(Hash(b)) && Hash(a) != Hash(b) && Hash(a) != 0
  {
    FirstCollidingHash();
    SecondCollidingHash();
  }

  lemma CollidingTokens(a: Token, b: Token)
    requires a == [1, 215] && b == [8, 0]
    ensures IsToken(a) && IsToken(b) && |a| == |b| == 2
  {
    assert a[0] != 0 && b[0] != 0;
  }

  lemma RepeatOf(a: Token, b: Token)
    requires a == [1, 215] && b == [8, 0]
    ensures Parse(Run([a, b, a]).log) == Some([a, b, a])
  {
    CollidingTokens(a, b);
    CollidingHashes(a, b);
    ThreeTurnsAreLogged(a, b);
  }

  /** So a longer token can be logged twice: these two share slot 577. */
  lemma LongerTokensCanRepeat()
    ensures var a: Token, b: Token := [1, 215], [8, 0]; Parse(Run([a, b, a]).log) == Some([a, b, a])
  {
    RepeatOf([1, 215], [8, 0]);
  }

  // ------------------------------------------------------------ runs of the class

  lemma RunMore(adds: seq<Token>, k: nat)
    requires k < |adds|
    ensures Run(adds[..k + 1]) == Add(Run(adds[..k]), adds[k])
  {
    assert adds[..k + 1][..k] == adds[..k];
  }

  /** Whatever tokens are added to a fresh log, one by one, it ends as the run says. */
  method AddAll(log: SharedLog, adds: seq<Token>)
    requires log.Valid() && log.Contents() == Empty()
    modifies log.shm, log.seen1, log.seenN
    ensures log.Valid() && log.Contents() == Run(adds)
  {
    for k := 0 to |adds|
      invariant log.Valid() && log.Contents() == Run(adds[..k])
    {
      RunMore(adds, k);
      log.AddToken(adds[k]);
    }
    assert adds[..|adds|] == adds;
  }
}
