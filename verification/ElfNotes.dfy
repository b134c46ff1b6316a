/** Finding the GNU build id in an ELF note area (System V gABI, chapter 5, Note Section). */
module ElfNotes {
  import opened Common
  import opened Bytes

  datatype Endian = Little | Big

  const MAX_ENTRIES := 128
  const NT_GNU_BUILD_ID := 3

  function Reverse(bs: seq<byte>): (r: seq<byte>)
    ensures |r| == |bs|
    ensures forall k | 0 <= k < |bs| :: r[k] == bs[|bs| - 1 - k]
  {
    seq(|bs|, k requires 0 <= k < |bs| => bs[|bs| - 1 - k])
  }

  function Word(raw: seq<byte>, endian: Endian): nat {
    LittleEndian(if endian.Little? then raw else Reverse(raw))
  }

  function ReadU32(bytes: seq<byte>, offset: nat, endian: Endian): Option<nat> {
    if offset + 4 <= |bytes| then Some(Word(bytes[offset..offset + 4], endian)) else None
  }

  /** Rounds up to a multiple of four; the addition is checked. */
  function Align4(value: nat): Option<nat> {
    if value + 3 < U64 then Some((value + 3) / 4 * 4) else None
  }

  // ---------------------------------------------------------------------- hex

  function HexDigit(n: nat): byte
    requires n < 16
  {
    if n < 10 then 48 + n else 87 + n
  }

  function ToLowerHex(bs: seq<byte>): seq<byte> {
    if bs == [] then [] else [HexDigit(bs[0] / 16), HexDigit(bs[0] % 16)] + ToLowerHex(bs[1..])
  }

  function HexValue(b: byte): Option<nat> {
    if 48 <= b <= 57 then Some(b - 48) else if 97 <= b <= 102 then Some(b - 87) else None
  }

  function FromLowerHex(s: seq<byte>): Option<seq<byte>> {
    if s == [] then Some([])
    else if |s| == 1 || HexValue(s[0]).None? || HexValue(s[1]).None? then None
    else
      match FromLowerHex(s[2..])
      case None => None
      case Some(rest) => Some([16 * HexValue(s[0]).value + HexValue(s[1]).value] + rest)
  }

  /** The printed id determines the bytes of the note. */
  lemma {:induction false} HexRoundTrip(bs: seq<byte>)
    ensures FromLowerHex(ToLowerHex(bs)) == Some(bs)
  {
    if bs != [] {
      HexRoundTrip(bs[1..]);
      var s := ToLowerHex(bs);
      assert s[2..] == ToLowerHex(bs[1..]);
      assert [bs[0]] + bs[1..] == bs;
    }
  }

  // ------------------------------------------------------------------ the walk

  datatype Note = Note(name: seq<byte>, desc: seq<byte>, kind: nat)

  /** What the header at an offset leads to. */
  datatype Visit = End | Malformed | Found(note: Note, next: nat)

  function Owner(name: seq<byte>): seq<byte> {
    if |name| > 0 && name[|name| - 1] == 0 then name[..|name| - 1] else name
  }

  /** Neither name nor description. */
  predicate IsBare(note: Note) {
    |note.name| == 0 && |note.desc| == 0
  }

  predicate IsBuildId(note: Note) {
    note.kind == NT_GNU_BUILD_ID && Owner(note.name) == Ascii("GNU") && |note.desc| > 0
  }

  /** The note whose twelve header bytes are `header`, if its pieces lie in the area. */
  function VisitBody(notes: seq<byte>, offset: nat, namesz: nat, descsz: nat, kind: nat): (v: Visit)
    ensures v.Found? ==> v.next >= offset + 12
  {
    if CheckedAdd(offset, 12).None? || CheckedAdd(offset + 12, namesz).None? then Malformed
    else
      var nameStart := offset + 12;
      match (CheckedSlice(notes, nameStart, namesz), Align4(nameStart + namesz))
      case (Some(name), Some(descStart)) =>
        if CheckedAdd(descStart, descsz).None? then Malformed
        else (match (CheckedSlice(notes, descStart, descsz), Align4(descStart + descsz))
              case (Some(desc), Some(next)) => Found(Note(name, desc, kind), next)
              case _ => Malformed)
      case _ => Malformed
  }

  function VisitNote(notes: seq<byte>, endian: Endian, offset: nat): (v: Visit)
    ensures v.Found? ==> v.next >= offset + 12
  {
    match CheckedSlice(notes, offset, 12)
    case None => End
    case Some(header) =>
      var namesz, descsz := Word(header[0..4], endian), Word(header[4..8], endian);
      if namesz == 0 && descsz == 0 then End
      else VisitBody(notes, offset, namesz, descsz, Word(header[8..12], endian))
  }

  /** What each offset of the area leads to. */
  function Visitor(notes: seq<byte>, endian: Endian): nat -> Visit {
    (offset: nat) => VisitNote(notes, endian, offset)
  }

  /** The build id found by walking from `offset`, looking at `budget` more notes. */
  function Walk(visit: nat -> Visit, offset: nat, budget: nat): Option<seq<byte>>
    decreases budget
  {
    if budget == 0 then None
    else
      match visit(offset)
      case Found(note, next) => if IsBuildId(note) then Some(ToLowerHex(note.desc)) else Walk(visit, next, budget - 1)
      case _ => None
  }

  function BuildId(notes: seq<byte>, endian: Endian): Option<seq<byte>> {
    Walk(Visitor(notes, endian), 0, MAX_ENTRIES)
  }

  lemma WalkStep(visit: nat -> Visit, offset: nat, budget: nat)
    requires budget > 0
    ensures Walk(visit, offset, budget)
         == if !visit(offset).Found? then None
            else if IsBuildId(visit(offset).note) then Some(ToLowerHex(visit(offset).note.desc))
            else Walk(visit, visit(offset).next, budget - 1)
  {
  }

  lemma NoHeader(notes: seq<byte>, endian: Endian, offset: nat)
    requires CheckedSlice(notes, offset, 12) == None
    ensures Visitor(notes, endian)(offset) == End
  {
  }

  /** The walk as the source writes it; `next <= offset` never ends it, since every note takes twelve bytes. */
  method ElfBuildIdFromNotes(endian: Endian, notes: seq<byte>) returns (id: Option<seq<byte>>)
    requires |notes| < 0x8000_0000_0000_0000
    ensures id == BuildId(notes, endian)
  {
    ghost var visit := Visitor(notes, endian);
    var offset, entries := 0, 0;
    while entries < MAX_ENTRIES
      invariant 0 <= entries <= MAX_ENTRIES && 0 <= offset
      invariant Walk(visit, offset, MAX_ENTRIES - entries) == BuildId(notes, endian)
    {
      WalkStep(visit, offset, MAX_ENTRIES - entries);
      var header := CheckedSlice(notes, offset, 12);
      if header == None {
        NoHeader(notes, endian, offset);
        break;
      }
      var seen := ReadNote(endian, notes, offset, header.value);
      if !seen.Found? {
        return None;
      }
      if IsBuildId(seen.note) {
        return Some(ToLowerHex(seen.note.desc));
      }
      if seen.next <= offset {
        break;
      }
      offset := seen.next;
      entries := entries + 1;
    }
    return None;
  }

  /** The checked reads of one turn of the walk, in the source's order. */
  method ReadNote(endian: Endian, notes: seq<byte>, offset: nat, header: seq<byte>) returns (v: Visit)
    requires CheckedSlice(notes, offset, 12) == Some(header)
    ensures v == Visitor(notes, endian)(offset) && (v.Found? ==> v.next >= offset + 12)
  {
    var namesz, descsz, noteType := ReadU32(header, 0, endian), ReadU32(header, 4, endian), ReadU32(header, 8, endian);
    if namesz.value == 0 && descsz.value == 0 {
      return End;
    }
    var nameStart := CheckedAdd(offset, 12);
    if nameStart == None {
      return Malformed;
    }
    var nameEnd := CheckedAdd(nameStart.value, namesz.value);
    if nameEnd == None {
      return Malformed;
    }
    var name := CheckedSlice(notes, nameStart.value, namesz.value);
    if name == None {
      return Malformed;
    }
    var descStart := Align4(nameEnd.value);
    if descStart == None {
      return Malformed;
    }
    var descEnd := CheckedAdd(descStart.value, descsz.value);
    if descEnd == None {
      return Malformed;
    }
    var desc := CheckedSlice(notes, descStart.value, descsz.value);
    if desc == None {
      return Malformed;
    }
    var next := Align4(descEnd.value);
    return if next == None then Malformed else Found(Note(name.value, desc.value, noteType.value), next.value);
  }

  // --------------------------------------------------------------- round trip

  function EncodeWord(n: nat, endian: Endian): (bs: seq<byte>)
    ensures |bs| == 4
  {
    var raw := ToLittleEndian(n, 4);
    if endian.Little? then raw else Reverse(raw)
  }

  lemma WordRoundTrip(n: nat, endian: Endian)
    requires n < U32
    ensures Word(EncodeWord(n, endian), endian) == n
  {
    var raw := ToLittleEndian(n, 4);
    Bytes.WordRoundTrip(n);
    assert Reverse(Reverse(raw)) == raw;
  }

  /** What fills `n` bytes up to a multiple of four. */
  function PadLength(n: nat): (pad: nat)
    ensures pad < 4
  {
    if n == 0 then 0 else if PadLength(n - 1) == 0 then 3 else PadLength(n - 1) - 1
  }

  /** A note and the bytes that fill its name and its description up to multiples of four. */
  datatype Entry = Entry(note: Note, namePad: seq<byte>, descPad: seq<byte>)

  predicate IsEntry(e: Entry) {
    && |e.note.name| < U32 && |e.note.desc| < U32 && e.note.kind < U32
    && |e.namePad| == PadLength(|e.note.name|) && |e.descPad| == PadLength(|e.note.desc|)
  }

  predicate AreEntries(es: seq<Entry>) {
    es == [] || (IsEntry(es[0]) && AreEntries(es[1..]))
  }

  function EncodeHeader(note: Note, endian: Endian): (bs: seq<byte>)
    ensures |bs| == 12
  {
    EncodeWord(|note.name|, endian) + EncodeWord(|note.desc|, endian) + EncodeWord(note.kind, endian)
  }

  function EncodeEntry(e: Entry, endian: Endian): seq<byte> {
    EncodeHeader(e.note, endian) + (e.note.name + (e.namePad + (e.note.desc + e.descPad)))
  }

  function EncodeEntries(es: seq<Entry>, endian: Endian): seq<byte> {
    if es == [] then [] else EncodeEntry(es[0], endian) + EncodeEntries(es[1..], endian)
  }

  /** Kind 3, a description, and the owner `GNU` with or without one closing NUL. */
  predicate HoldsBuildId(note: Note) {
    note.kind == 3 && |note.desc| > 0 && (note.name == [71, 78, 85] || note.name == [71, 78, 85, 0])
  }

  /** The description in two lower-case digits a byte, high digit first. */
  function Digits(desc: seq<byte>): seq<char> {
    if desc == [] then []
    else ["0123456789abcdef"[desc[0] / 16], "0123456789abcdef"[desc[0] % 16]] + Digits(desc[1..])
  }

  /**
   The first build id among the first `budget` notes; a note with neither name nor description ends the list.
   This is told of the notes alone, apart from the tests the walk makes.
   */
  function FirstBuildId(es: seq<Entry>, budget: nat): Option<seq<byte>> {
    if es == [] || budget == 0 || (es[0].note.name == [] && es[0].note.desc == []) then None
    else if HoldsBuildId(es[0].note) then Some(Ascii(Digits(es[0].note.desc)))
    else FirstBuildId(es[1..], budget - 1)
  }

  /** The walk takes exactly the notes that hold a build id, whatever follows the owner or stands in front of it. */
  lemma BuildIdIsRecognized(note: Note)
    ensures IsBuildId(note) <==> HoldsBuildId(note)
  {
    var name := note.name;
    assert Ascii("GNU") == [71, 78, 85];
    if |name| > 0 && name[|name| - 1] == 0 {
      assert name == name[..|name| - 1] + [0];
      assert [71, 78, 85] + [0] == [71, 78, 85, 0];
    }
  }

  lemma DigitIsPrinted(n: nat)
    requires n < 16
    ensures HexDigit(n) == "0123456789abcdef"[n] as int % 256
  {
  }

  lemma {:induction false} DigitsArePrinted(desc: seq<byte>)
    ensures ToLowerHex(desc) == Ascii(Digits(desc))
  {
    if desc != [] {
      DigitIsPrinted(desc[0] / 16);
      DigitIsPrinted(desc[0] % 16);
      DigitsArePrinted(desc[1..]);
      assert Digits(desc)[2..] == Digits(desc[1..]);
      var first := [HexDigit(desc[0] / 16), HexDigit(desc[0] % 16)];
      assert forall k | 2 <= k < |Digits(desc)| :: Ascii(Digits(desc))[k] == Ascii(Digits(desc[1..]))[k - 2];
      assert Ascii(Digits(desc)) == first + Ascii(Digits(desc[1..]));
    }
  }

  lemma ThreeWords(a: seq<byte>, b: seq<byte>, c: seq<byte>)
    requires |a| == |b| == |c| == 4
    ensures (a + b + c)[0..4] == a && (a + b + c)[4..8] == b && (a + b + c)[8..12] == c
  {
  }

  lemma HeaderIsRead(e: Entry, endian: Endian)
    requires IsEntry(e)
    ensures var header := EncodeHeader(e.note, endian);
            && Word(header[0..4], endian) == |e.note.name| && Word(header[4..8], endian) == |e.note.desc|
            && Word(header[8..12], endian) == e.note.kind
  {
    WordRoundTrip(|e.note.name|, endian);
    WordRoundTrip(|e.note.desc|, endian);
    WordRoundTrip(e.note.kind, endian);
    ThreeWords(EncodeWord(|e.note.name|, endian), EncodeWord(|e.note.desc|, endian), EncodeWord(e.note.kind, endian));
  }

  lemma {:induction false} PadFills(n: nat)
    ensures (n + PadLength(n)) % 4 == 0
  {
    if n > 0 {
      PadFills(n - 1);
    }
  }

  lemma FivePieces(bytes: seq<byte>, at: nat, a: seq<byte>, b: seq<byte>, c: seq<byte>, d: seq<byte>, e: seq<byte>)
    requires HoldsAt(bytes, at, a + (b + (c + (d + e))))
    ensures HoldsAt(bytes, at, a) && HoldsAt(bytes, at + |a|, b) && HoldsAt(bytes, at + |a| + |b| + |c|, d)
  {
    HoldsSplit(bytes, at, a, b + (c + (d + e)));
    HoldsSplit(bytes, at + |a|, b, c + (d + e));
    HoldsSplit(bytes, at + |a| + |b|, c, d + e);
    HoldsSplit(bytes, at + |a| + |b| + |c|, d, e);
  }

  /** Where the pieces of an entry that starts at `offset` stand. */
  lemma EntryPieces(notes: seq<byte>, offset: nat, e: Entry, endian: Endian, desc: nat)
    requires IsEntry(e) && HoldsAt(notes, offset, EncodeEntry(e, endian))
    requires desc == offset + 12 + |e.note.name| + PadLength(|e.note.name|)
    ensures HoldsAt(notes, offset, EncodeHeader(e.note, endian))
    ensures HoldsAt(notes, offset + 12, e.note.name)
    ensures HoldsAt(notes, desc, e.note.desc)
  {
    FivePieces(notes, offset, EncodeHeader(e.note, endian), e.note.name, e.namePad, e.note.desc, e.descPad);
  }

  lemma PaddedTwice(offset: nat, n: nat, m: nat)
    requires offset % 4 == 0
    ensures (offset + 12 + n + PadLength(n) + m + PadLength(m)) % 4 == 0
  {
    PadFills(n);
    PadFills(m);
  }

  lemma FiveLengths(a: seq<byte>, b: seq<byte>, c: seq<byte>, d: seq<byte>, e: seq<byte>)
    ensures |a + (b + (c + (d + e)))| == |a| + |b| + |c| + |d| + |e|
  {
  }

  lemma EntryLength(e: Entry, endian: Endian)
    requires IsEntry(e)
    ensures |EncodeEntry(e, endian)|
         == 12 + |e.note.name| + PadLength(|e.note.name|) + |e.note.desc| + PadLength(|e.note.desc|)
  {
    FiveLengths(EncodeHeader(e.note, endian), e.note.name, e.namePad, e.note.desc, e.descPad);
  }

  lemma Aligned(offset: nat, n: nat)
    requires offset % 4 == 0 && offset + n + 3 < U64
    ensures Align4(offset + n) == Some(offset + n + PadLength(n))
  {
    PadFills(n);
  }

  lemma BodyIsVisited(notes: seq<byte>, offset: nat, note: Note, desc: nat, next: nat)
    requires offset % 4 == 0 && |notes| + 16 < U64
    requires HoldsAt(notes, offset + 12, note.name) && HoldsAt(notes, desc, note.desc)
    requires desc == offset + 12 + |note.name| + PadLength(|note.name|)
    requires next == desc + |note.desc| + PadLength(|note.desc|)
    ensures VisitBody(notes, offset, |note.name|, |note.desc|, note.kind) == Found(note, next)
  {
    Aligned(offset + 12, |note.name|);
    Aligned(desc, |note.desc|);
  }

  lemma HeaderIsVisited(notes: seq<byte>, offset: nat, header: seq<byte>, endian: Endian, namesz: nat, descsz: nat, kind: nat)
    requires |header| == 12 && HoldsAt(notes, offset, header) && |notes| < U64
    requires Word(header[0..4], endian) == namesz && Word(header[4..8], endian) == descsz
    requires Word(header[8..12], endian) == kind
    ensures VisitNote(notes, endian, offset)
         == if namesz == 0 && descsz == 0 then End else VisitBody(notes, offset, namesz, descsz, kind)
  {
  }

  lemma PiecesAreVisited(notes: seq<byte>, offset: nat, header: seq<byte>, endian: Endian, note: Note, desc: nat, next: nat)
    requires offset % 4 == 0 && |notes| + 16 < U64 && |header| == 12
    requires Word(header[0..4], endian) == |note.name| && Word(header[4..8], endian) == |note.desc|
    requires Word(header[8..12], endian) == note.kind
    requires HoldsAt(notes, offset, header) && HoldsAt(notes, offset + 12, note.name) && HoldsAt(notes, desc, note.desc)
    requires desc == offset + 12 + |note.name| + PadLength(|note.name|)
    requires next == desc + |note.desc| + PadLength(|note.desc|)
    ensures VisitNote(notes, endian, offset) == if IsBare(note) then End else Found(note, next)
  {
    HeaderIsVisited(notes, offset, header, endian, |note.name|, |note.desc|, note.kind);
    BodyIsVisited(notes, offset, note, desc, next);
  }

  lemma EntryIsVisited(notes: seq<byte>, offset: nat, e: Entry, endian: Endian, next: nat)
    requires IsEntry(e) && offset % 4 == 0 && |notes| + 16 < U64
    requires HoldsAt(notes, offset, EncodeEntry(e, endian)) && next == offset + |EncodeEntry(e, endian)|
    ensures VisitNote(notes, endian, offset) == if IsBare(e.note) then End else Found(e.note, next)
  {
    var desc := offset + 12 + |e.note.name| + PadLength(|e.note.name|);
    assert next == desc + |e.note.desc| + PadLength(|e.note.desc|) by { EntryLength(e, endian); }
    EntryPieces(notes, offset, e, endian, desc);
    HeaderIsRead(e, endian);
    PiecesAreVisited(notes, offset, EncodeHeader(e.note, endian), endian, e.note, desc, next);
  }

  lemma EntryIsAligned(offset: nat, e: Entry, endian: Endian)
    requires IsEntry(e) && offset % 4 == 0
    ensures (offset + |EncodeEntry(e, endian)|) % 4 == 0
  {
    EntryLength(e, endian);
    PaddedTwice(offset, |e.note.name|, |e.note.desc|);
  }

  /** An entry and what stands behind it. */
  lemma EntryStandsFirst(notes: seq<byte>, offset: nat, es: seq<Entry>, endian: Endian, tail: seq<byte>, next: nat)
    requires es != [] && offset <= |notes| && notes[offset..] == EncodeEntries(es, endian) + tail
    requires next == offset + |EncodeEntry(es[0], endian)|
    ensures HoldsAt(notes, offset, EncodeEntry(es[0], endian))
    ensures next <= |notes| && notes[next..] == EncodeEntries(es[1..], endian) + tail
  {
    Regroup(EncodeEntry(es[0], endian), EncodeEntries(es[1..], endian), tail);
    RestSplit(notes, offset, EncodeEntry(es[0], endian), EncodeEntries(es[1..], endian) + tail);
  }

  /** A multiple of four. */
  predicate OnFour(n: nat) {
    n == 0 || (n >= 4 && OnFour(n - 4))
  }

  lemma {:induction false} OnFourExactly(n: nat)
    ensures OnFour(n) <==> n % 4 == 0
  {
    if n >= 4 {
      OnFourExactly(n - 4);
    }
  }

  lemma NextIsOnFour(offset: nat, e: Entry, endian: Endian, next: nat)
    requires IsEntry(e) && OnFour(offset) && next == offset + |EncodeEntry(e, endian)|
    ensures OnFour(next)
  {
    OnFourExactly(offset);
    EntryIsAligned(offset, e, endian);
    OnFourExactly(next);
  }

  lemma VisitOnFour(notes: seq<byte>, offset: nat, e: Entry, endian: Endian, next: nat)
    requires IsEntry(e) && OnFour(offset) && |notes| + 16 < U64
    requires HoldsAt(notes, offset, EncodeEntry(e, endian)) && next == offset + |EncodeEntry(e, endian)|
    ensures VisitNote(notes, endian, offset) == if IsBare(e.note) then End else Found(e.note, next)
  {
    OnFourExactly(offset);
    EntryIsVisited(notes, offset, e, endian, next);
  }

  /** The first entry is visited, and the rest of the area holds the other entries. */
  lemma FirstEntryIsVisited(notes: seq<byte>, offset: nat, es: seq<Entry>, endian: Endian, tail: seq<byte>, next: nat)
    requires es != [] && IsEntry(es[0]) && OnFour(offset) && offset <= |notes| && |notes| + 16 < U64
    requires notes[offset..] == EncodeEntries(es, endian) + tail && next == offset + |EncodeEntry(es[0], endian)|
    ensures OnFour(next) && next <= |notes| && notes[next..] == EncodeEntries(es[1..], endian) + tail
    ensures VisitNote(notes, endian, offset) == if IsBare(es[0].note) then End else Found(es[0].note, next)
  {
    EntryStandsFirst(notes, offset, es, endian, tail, next);
    NextIsOnFour(offset, es[0], endian, next);
    VisitOnFour(notes, offset, es[0], endian, next);
  }

  /** Visiting from `offset` finds the entries one behind the other, up to a bare one, and then no more. */
  ghost predicate Leads(visit: nat -> Visit, offset: nat, es: seq<Entry>)
    decreases |es|
  {
    if es == [] then !visit(offset).Found?
    else if IsBare(es[0].note) then visit(offset) == End
    else visit(offset).Found? && visit(offset).note == es[0].note && Leads(visit, visit(offset).next, es[1..])
  }

  lemma LeadsFirst(visit: nat -> Visit, offset: nat, es: seq<Entry>, next: nat)
    requires es != [] && visit(offset) == (if IsBare(es[0].note) then End else Found(es[0].note, next))
    requires Leads(visit, next, es[1..])
    ensures Leads(visit, offset, es)
  {
  }

  lemma VisitorVisits(notes: seq<byte>, endian: Endian, offset: nat)
    ensures Visitor(notes, endian)(offset) == VisitNote(notes, endian, offset)
  {
  }

  lemma FoursAdd(n: nat, m: nat)
    requires n % 4 == 0 && m % 4 == 0
    ensures (n + m) % 4 == 0
  {
  }

  lemma FirstIsAligned(es: seq<Entry>, endian: Endian)
    requires es != [] && IsEntry(es[0]) && |EncodeEntries(es[1..], endian)| % 4 == 0
    ensures |EncodeEntries(es, endian)| % 4 == 0
  {
    var n, m := |EncodeEntry(es[0], endian)|, |EncodeEntries(es[1..], endian)|;
    assert |EncodeEntries(es, endian)| == n + m;
    EntryIsAligned(0, es[0], endian);
    FoursAdd(n, m);
  }

  lemma {:induction false} EntriesAreAligned(es: seq<Entry>, endian: Endian)
    requires AreEntries(es)
    ensures |EncodeEntries(es, endian)| % 4 == 0
  {
    if es != [] {
      EntriesAreAligned(es[1..], endian);
      FirstIsAligned(es, endian);
    }
  }

  lemma LeadsOneMore(visit: nat -> Visit, offset: nat, es: seq<Entry>, last: seq<Entry>, next: nat)
    requires es != [] && visit(offset) == (if IsBare(es[0].note) then End else Found(es[0].note, next))
    requires Leads(visit, next, es[1..] + last)
    ensures Leads(visit, offset, es + last)
  {
    assert (es + last)[0] == es[0] && (es + last)[1..] == es[1..] + last;
    LeadsFirst(visit, offset, es + last, next);
  }

  lemma LeadsFrom(notes: seq<byte>, offset: nat, es: seq<Entry>, endian: Endian, last: seq<Entry>, next: nat)
    requires es != [] && VisitNote(notes, endian, offset) == (if IsBare(es[0].note) then End else Found(es[0].note, next))
    requires Leads(Visitor(notes, endian), next, es[1..] + last)
    ensures Leads(Visitor(notes, endian), offset, es + last)
  {
    VisitorVisits(notes, endian, offset);
    LeadsOneMore(Visitor(notes, endian), offset, es, last, next);
  }

  /** The visits find every entry, and then what the rest of the area leads to. */
  lemma {:induction false} EntriesLead(notes: seq<byte>, offset: nat, es: seq<Entry>, endian: Endian, tail: seq<byte>,
                                       end: nat, last: seq<Entry>)
    requires AreEntries(es)
    requires OnFour(offset) && offset <= |notes| && |notes| + 16 < U64 && end + |tail| == |notes|
    requires notes[offset..] == EncodeEntries(es, endian) + tail
    requires Leads(Visitor(notes, endian), end, last)
    ensures Leads(Visitor(notes, endian), offset, es + last)
    decreases |es|
  {
    if es == [] {
      assert |notes[offset..]| == |tail|;
      assert es + last == last;
    } else {
      var next := offset + |EncodeEntry(es[0], endian)|;
      FirstEntryIsVisited(notes, offset, es, endian, tail, next);
      EntriesLead(notes, next, es[1..], endian, tail, end, last);
      LeadsFrom(notes, offset, es, endian, last, next);
    }
  }

  lemma {:induction false} LeadsToBuildId(visit: nat -> Visit, offset: nat, es: seq<Entry>, budget: nat)
    requires Leads(visit, offset, es)
    ensures Walk(visit, offset, budget) == FirstBuildId(es, budget)
    decreases budget
  {
    if budget > 0 && es != [] && !IsBare(es[0].note) {
      BuildIdIsRecognized(es[0].note);
      DigitsArePrinted(es[0].note.desc);
      LeadsToBuildId(visit, visit(offset).next, es[1..], budget - 1);
    }
  }

  // ------------------------------------------------------- a note cut at the end

  lemma NothingBehindTheEnd(notes: seq<byte>, endian: Endian, offset: nat)
    requires offset + 12 > |notes|
    ensures VisitNote(notes, endian, offset) == End
  {
  }

  /** A description that does not fit into the area is refused. */
  lemma CutBodyIsRefused(notes: seq<byte>, offset: nat, namesz: nat, descsz: nat, kind: nat)
    requires offset % 4 == 0
    requires |notes| < offset + 12 + namesz + PadLength(namesz) + descsz
    ensures VisitBody(notes, offset, namesz, descsz, kind) == Malformed
  {
    if offset + 12 + namesz + 3 < U64 {
      Aligned(offset + 12, namesz);
    }
  }

  /** The bytes of an entry up to `cut`, standing at the end of the area. */
  lemma CutEntryIsVisited(notes: seq<byte>, offset: nat, e: Entry, endian: Endian, cut: nat)
    requires IsEntry(e) && offset % 4 == 0 && |notes| + 16 < U64
    requires cut <= |EncodeEntry(e, endian)| && |notes| == offset + cut
    requires notes[offset..] == EncodeEntry(e, endian)[..cut]
    ensures Leads(Visitor(notes, endian), offset, if cut < |EncodeEntry(e, endian)| - |e.descPad| then [] else [e])
  {
    var name, desc := offset + 12, offset + 12 + |e.note.name| + PadLength(|e.note.name|);
    EntryLength(e, endian);
    VisitorVisits(notes, endian, offset);
    if cut < 12 {
      NothingBehindTheEnd(notes, endian, offset);
    } else {
      HeaderIsRead(e, endian);
      CutPieces(notes, offset, e, endian, cut, desc);
      if cut < |EncodeEntry(e, endian)| - |e.descPad| {
        CutHeaderIsVisited(notes, offset, e, endian);
      } else {
        var next := desc + |e.note.desc| + PadLength(|e.note.desc|);
        PiecesAreVisited(notes, offset, EncodeHeader(e.note, endian), endian, e.note, desc, next);
        VisitorVisits(notes, endian, next);
        NothingBehindTheEnd(notes, endian, next);
        LeadsFirst(Visitor(notes, endian), offset, [e], next);
      }
    }
  }

  lemma CutHeaderIsVisited(notes: seq<byte>, offset: nat, e: Entry, endian: Endian)
    requires IsEntry(e) && offset % 4 == 0 && |notes| < U64
    requires HoldsAt(notes, offset, EncodeHeader(e.note, endian))
    requires |notes| < offset + 12 + |e.note.name| + PadLength(|e.note.name|) + |e.note.desc|
    ensures !VisitNote(notes, endian, offset).Found?
  {
    HeaderIsRead(e, endian);
    HeaderIsVisited(notes, offset, EncodeHeader(e.note, endian), endian, |e.note.name|, |e.note.desc|, e.note.kind);
    CutBodyIsRefused(notes, offset, |e.note.name|, |e.note.desc|, e.note.kind);
  }

  lemma PieceOfCut(notes: seq<byte>, offset: nat, whole: seq<byte>, cut: nat, at: nat, piece: seq<byte>)
    requires cut <= |whole| && |notes| == offset + cut && notes[offset..] == whole[..cut]
    requires HoldsAt(whole, at, piece) && at + |piece| <= cut
    ensures HoldsAt(notes, offset + at, piece)
  {
    SliceOfRest(notes, offset, at, |piece|);
    assert whole[..cut][at..at + |piece|] == whole[at..at + |piece|];
  }

  lemma CutPieces(notes: seq<byte>, offset: nat, e: Entry, endian: Endian, cut: nat, desc: nat)
    requires IsEntry(e) && 12 <= cut <= |EncodeEntry(e, endian)| && |notes| == offset + cut
    requires notes[offset..] == EncodeEntry(e, endian)[..cut]
    requires desc == offset + 12 + |e.note.name| + PadLength(|e.note.name|)
    ensures HoldsAt(notes, offset, EncodeHeader(e.note, endian))
    ensures offset + cut >= desc + |e.note.desc| ==> HoldsAt(notes, offset + 12, e.note.name)
    ensures offset + cut >= desc + |e.note.desc| ==> HoldsAt(notes, desc, e.note.desc)
  {
    var whole := EncodeEntry(e, endian);
    assert whole[0..|whole|] == whole;
    EntryPieces(whole, 0, e, endian, desc - offset);
    PieceOfCut(notes, offset, whole, cut, 0, EncodeHeader(e.note, endian));
    if offset + cut >= desc + |e.note.desc| {
      PieceOfCut(notes, offset, whole, cut, 12, e.note.name);
      PieceOfCut(notes, offset, whole, cut, desc - offset, e.note.desc);
    }
  }

  lemma AreaIsRead(front: seq<byte>, es: seq<Entry>, endian: Endian, e: Entry, tail: seq<byte>, cut: nat, last: seq<Entry>)
    requires IsEntry(e) && cut <= |EncodeEntry(e, endian)| && tail == EncodeEntry(e, endian)[..cut]
    requires AreEntries(es)
    requires front == EncodeEntries(es, endian) && |front| % 4 == 0 && |front| + cut + 16 < U64
    requires last == if cut < |EncodeEntry(e, endian)| - |e.descPad| then [] else [e]
    ensures BuildId(front + tail, endian) == FirstBuildId(es + last, 128)
  {
    var notes := front + tail;
    assert notes[0..] == notes && notes[|front|..] == tail;
    CutEntryIsVisited(notes, |front|, e, endian, cut);
    EntriesLead(notes, 0, es, endian, tail, |front|, last);
    LeadsToBuildId(Visitor(notes, endian), 0, es + last, 128);
  }

  /**
   For every note area in either byte order: the id in the first note among 128 that holds one. The last
   entry may be cut: it counts exactly if its whole description is there, with or without the padding.
   */
  lemma NoteAreaIsRead(es: seq<Entry>, endian: Endian, e: Entry, cut: nat)
    requires IsEntry(e) && cut <= |EncodeEntry(e, endian)| && AreEntries(es)
    requires |EncodeEntries(es, endian)| + cut + 16 < U64
    ensures BuildId(EncodeEntries(es, endian) + EncodeEntry(e, endian)[..cut], endian)
         == FirstBuildId(es + if cut < |EncodeEntry(e, endian)| - |e.descPad| then [] else [e], 128)
  {
    var whole := EncodeEntry(e, endian);
    EntriesAreAligned(es, endian);
    AreaIsRead(EncodeEntries(es, endian), es, endian, e, whole[..cut], cut,
               if cut < |whole| - |e.descPad| then [] else [e]);
  }
}
