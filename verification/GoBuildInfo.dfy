/** Reading the toolchain version and the module list that Go links into a binary. */
module GoBuildInfo {
  import opened Common
  import opened Bytes
  import opened Leb128
  import opened Utf8

  const TAB: byte := 9
  const NEWLINE: byte := 10
  const RETURN: byte := 13

  datatype GoString = GoString(text: seq<byte>, rest: seq<byte>)

  datatype Module = Module(path: seq<byte>, version: seq<byte>)

  datatype BuildInfo = BuildInfo(goVersion: seq<byte>, modules: seq<Module>)

  function Magic(): (m: seq<byte>)
    ensures |m| == 14
  {
    [0xff, 0x20, 0x47, 0x6f, 0x20, 0x62, 0x75, 0x69, 0x6c, 0x64, 0x69, 0x6e, 0x66, 0x3a]
  }

  // ------------------------------------------------------------------ strings

  function DecodeGoString(data: seq<byte>): Option<GoString> {
    match Uvarint(data)
    case None => None
    case Some(n) =>
      if CheckedAdd(n.read, n.value).Some? && n.read + n.value <= |data|
      then Some(GoString(data[n.read..n.read + n.value], data[n.read + n.value..]))
      else None
  }

  function EncodeGoString(text: seq<byte>): seq<byte> {
    EncodeUvarint(|text|) + text
  }

  lemma GoStringRoundTrip(text: seq<byte>, rest: seq<byte>)
    requires |text| + 10 < U64
    ensures DecodeGoString(EncodeGoString(text) + rest) == Some(GoString(text, rest))
  {
    var head := EncodeUvarint(|text|);
    var data := EncodeGoString(text) + rest;
    assert data == head + (text + rest);
    UvarintRoundTrip(|text|, text + rest);
    assert data[|head|..|head| + |text|] == text && data[|head| + |text|..] == rest;
  }

  // ------------------------------------------------------ lines and their fields

  /** Everything before the first `b`, or everything. */
  function UpTo(s: seq<byte>, b: byte): (head: seq<byte>)
    ensures |head| <= |s| && head == s[..|head|]
    ensures forall k | 0 <= k < |head| :: s[k] != b
    ensures |head| < |s| ==> s[|head|] == b
  {
    if s == [] || s[0] == b then [] else [s[0]] + UpTo(s[1..], b)
  }

  function Split(s: seq<byte>, b: byte): (parts: seq<seq<byte>>)
    ensures |parts| > 0
    decreases |s|
  {
    var head := UpTo(s, b);
    if |head| == |s| then [s] else [head] + Split(s[|head| + 1..], b)
  }

  function StripReturn(line: seq<byte>): seq<byte> {
    if |line| > 0 && line[|line| - 1] == RETURN then line[..|line| - 1] else line
  }

  /** `str::lines`: a final newline ends the last line, and `\r\n` ends a line like `\n`. */
  function Lines(s: seq<byte>): seq<seq<byte>>
    decreases |s|
  {
    if s == [] then []
    else
      var head := UpTo(s, NEWLINE);
      if |head| == |s| then [s] else [StripReturn(head)] + Lines(s[|head| + 1..])
  }

  function ParseLine(line: seq<byte>): Option<Module> {
    var fields := Split(line, TAB);
    if (fields[0] == Ascii("mod") || fields[0] == Ascii("dep")) && |fields| >= 3 then
      var path, version := Trim(fields[1]), Trim(fields[2]);
      if path != [] && version != [] then Some(Module(path, version)) else None
    else None
  }

  function ModulesIn(line: seq<byte>): seq<Module> {
    match ParseLine(line)
    case None => []
    case Some(m) => [m]
  }

  function ModulesOf(lines: seq<seq<byte>>): seq<Module> {
    if lines == [] then []
    else ModulesIn(lines[0]) + ModulesOf(lines[1..])
  }

  lemma {:induction false} ModulesOfAppend(lines: seq<seq<byte>>, line: seq<byte>)
    ensures ModulesOf(lines + [line]) == ModulesOf(lines) + ModulesIn(line)
  {
    if lines == [] {
      assert [] + [line] == [line] && [line][1..] == [];
    } else {
      assert (lines + [line])[1..] == lines[1..] + [line];
      ModulesOfAppend(lines[1..], line);
      Regroup(ModulesIn(lines[0]), ModulesOf(lines[1..]), ModulesIn(line));
    }
  }

  lemma OneMoreLine(lines: seq<seq<byte>>, i: nat)
    requires i < |lines|
    ensures ModulesOf(lines[..i + 1]) == ModulesOf(lines[..i]) + ModulesIn(lines[i])
  {
    var before, line := lines[..i], lines[i];
    assert lines[..i + 1] == before + [line];
    ModulesOfAppend(before, line);
  }

  method ParseGoModinfo(modinfo: seq<byte>) returns (modules: seq<Module>)
    ensures modules == ModulesOf(Lines(Lossy(modinfo)))
  {
    modules := [];
    var lines := Lines(Lossy(modinfo));
    for i := 0 to |lines|
      invariant modules == ModulesOf(lines[..i])
    {
      OneMoreLine(lines, i);
      var m := ParseLine(lines[i]);
      if m.Some? {
        modules := modules + [m.value];
      } else {
        assert modules + [] == modules;
      }
    }
    assert lines[..|lines|] == lines;
  }

  // ----------------------------------------------------------- the whole block

  predicate MagicAt(bytes: seq<byte>, at: nat) {
    at + 14 <= |bytes| && bytes[at..at + 14] == Magic()
  }

  /** The first place where the magic stands, from `at` on. */
  function FindMagic(bytes: seq<byte>, at: nat): (r: Option<nat>)
    ensures r.Some? ==> at <= r.value && MagicAt(bytes, r.value)
    ensures forall k | at <= k && (r.Some? ==> k < r.value) :: !MagicAt(bytes, k)
    decreases |bytes| - at
  {
    if at + 14 > |bytes| then None
    else if MagicAt(bytes, at) then Some(at)
    else FindMagic(bytes, at + 1)
  }

  /** The text between the two sixteen-byte sentinels, if a newline stands before the second. */
  function ModinfoText(modinfo: seq<byte>): Option<seq<byte>> {
    if |modinfo| < 33 || modinfo[|modinfo| - 17] != NEWLINE then None else Some(modinfo[16..|modinfo| - 16])
  }

  function InfoAfterHeader(data: seq<byte>): Option<BuildInfo> {
    match DecodeGoString(data)
    case None => None
    case Some(version) =>
      match DecodeGoString(version.rest)
      case None => None
      case Some(modinfo) =>
        var modules := match ModinfoText(modinfo.text) case None => [] case Some(text) => ModulesOf(Lines(Lossy(text)));
        Some(BuildInfo(Trim(Lossy(version.text)), modules))
  }

  /** Bit 1 of the flags says that the strings stand inline, 32 bytes past the magic. */
  function Read(bytes: seq<byte>): Option<BuildInfo> {
    match FindMagic(bytes, 0)
    case None => None
    case Some(at) =>
      if at + 15 >= |bytes| || (bytes[at + 15] / 2) % 2 == 0 || at + 32 > |bytes| then None
      else InfoAfterHeader(bytes[at + 32..])
  }

  // ------------------------------------------------------------ lines as they are laid out

  predicate Lacks(s: seq<byte>, b: byte) {
    forall k | 0 <= k < |s| :: s[k] != b
  }

  /** A line of the module list: its fields, and whether a carriage return stands before its newline. */
  datatype Line = Line(fields: seq<seq<byte>>, cr: bool)

  /** At least one field, and neither a tab nor a newline in any. */
  predicate AreFields(fs: seq<seq<byte>>) {
    && |fs| > 0 && Lacks(fs[0], 9) && Lacks(fs[0], 10)
    && (|fs| > 1 ==> AreFields(fs[1..]))
  }

  function Tabbed(fs: seq<seq<byte>>): seq<byte>
    requires |fs| > 0
  {
    if |fs| == 1 then fs[0] else fs[0] + ([9] + Tabbed(fs[1..]))
  }

  predicate EndsIn(s: seq<byte>, b: byte) {
    |s| > 0 && s[|s| - 1] == b
  }

  predicate IsLine(l: Line) {
    AreFields(l.fields) && !EndsIn(Tabbed(l.fields), 13)
  }

  function LineText(l: Line): seq<byte>
    requires |l.fields| > 0
  {
    Tabbed(l.fields) + if l.cr then [13] else []
  }

  predicate AreLines(ls: seq<Line>) {
    ls == [] || (IsLine(ls[0]) && AreLines(ls[1..]))
  }

  /** A module list: every line ends in a newline. */
  function Text(ls: seq<Line>): seq<byte>
    requires AreLines(ls)
  {
    if ls == [] then [] else LineText(ls[0]) + ([10] + Text(ls[1..]))
  }

  /** The module a line of fields names: behind `mod` or `dep`, a path and a version with something in them. */
  function Named(fs: seq<seq<byte>>): seq<Module> {
    if |fs| >= 3 && (fs[0] == [109, 111, 100] || fs[0] == [100, 101, 112]) && |Trim(fs[1])| > 0 && |Trim(fs[2])| > 0
    then [Module(Trim(fs[1]), Trim(fs[2]))]
    else []
  }

  /** What stands in front of a separator is split off as it is. */
  lemma {:induction false} UpToIs(head: seq<byte>, b: byte, rest: seq<byte>)
    requires Lacks(head, b)
    ensures UpTo(head + ([b] + rest), b) == head && UpTo(head, b) == head
  {
    if head == [] {
      assert head + ([b] + rest) == [b] + rest;
    } else {
      assert (head + ([b] + rest))[1..] == head[1..] + ([b] + rest);
      UpToIs(head[1..], b, rest);
    }
  }

  lemma SplitFirst(head: seq<byte>, b: byte, rest: seq<byte>)
    requires Lacks(head, b)
    ensures Split(head + ([b] + rest), b) == [head] + Split(rest, b)
    ensures Split(head, b) == [head]
  {
    UpToIs(head, b, rest);
    assert (head + ([b] + rest))[|head| + 1..] == rest;
  }

  lemma LinesFirst(head: seq<byte>, rest: seq<byte>)
    requires Lacks(head, 10)
    ensures Lines(head + ([10] + rest)) == [StripReturn(head)] + Lines(rest)
  {
    UpToIs(head, 10, rest);
    assert (head + ([10] + rest))[|head| + 1..] == rest;
  }

  /** Fields joined by tabs are split into just those fields. */
  lemma {:induction false} FieldsAreSplit(fs: seq<seq<byte>>)
    requires AreFields(fs)
    ensures Split(Tabbed(fs), 9) == fs
  {
    if |fs| == 1 {
      SplitFirst(fs[0], 9, []);
      assert fs == [fs[0]];
    } else {
      var rest := fs[1..];
      FieldsAreSplit(rest);
      SplitFirst(fs[0], 9, Tabbed(rest));
      assert fs == [fs[0]] + rest;
    }
  }

  lemma KeyBytes()
    ensures Ascii("mod") == [109, 111, 100] && Ascii("dep") == [100, 101, 112]
  {
  }

  /** So a line gives the module its fields name, or none. */
  lemma FieldsAreParsed(fs: seq<seq<byte>>)
    requires AreFields(fs)
    ensures ModulesIn(Tabbed(fs)) == Named(fs)
  {
    FieldsAreSplit(fs);
    KeyBytes();
  }

  lemma {:induction false} TabbedLacksNewline(fs: seq<seq<byte>>)
    requires AreFields(fs)
    ensures Lacks(Tabbed(fs), 10)
  {
    if |fs| > 1 {
      TabbedLacksNewline(fs[1..]);
    }
  }

  /** A line ends at its newline, and a carriage return in front of it is stripped. */
  lemma LineIsCut(l: Line, rest: seq<byte>)
    requires IsLine(l)
    ensures Lines(LineText(l) + ([10] + rest)) == [Tabbed(l.fields)] + Lines(rest)
  {
    TabbedLacksNewline(l.fields);
    LinesFirst(LineText(l), rest);
    if l.cr {
      assert LineText(l)[..|LineText(l)| - 1] == Tabbed(l.fields);
    } else {
      assert LineText(l) == Tabbed(l.fields);
    }
  }

  /** The modules the lines name, in order. */
  function NamedIn(ls: seq<Line>): seq<Module> {
    if ls == [] then [] else Named(ls[0].fields) + NamedIn(ls[1..])
  }

  lemma ModulesOfFirst(line: seq<byte>, lines: seq<seq<byte>>)
    ensures ModulesOf([line] + lines) == ModulesIn(line) + ModulesOf(lines)
  {
    assert ([line] + lines)[1..] == lines;
  }

  lemma {:induction false} LinesAreParsed(ls: seq<Line>)
    requires AreLines(ls)
    ensures ModulesOf(Lines(Text(ls))) == NamedIn(ls)
  {
    if ls != [] {
      LineIsCut(ls[0], Text(ls[1..]));
      ModulesOfFirst(Tabbed(ls[0].fields), Lines(Text(ls[1..])));
      FieldsAreParsed(ls[0].fields);
      LinesAreParsed(ls[1..]);
    }
  }

  // --------------------------------------------------------------- malformed text

  function LossyFields(fs: seq<seq<byte>>): (r: seq<seq<byte>>)
    ensures |r| == |fs|
  {
    if fs == [] then [] else [Lossy(fs[0])] + LossyFields(fs[1..])
  }

  function LossyLines(ls: seq<Line>): (r: seq<Line>)
    ensures |r| == |ls|
  {
    if ls == [] then [] else [Line(LossyFields(ls[0].fields), ls[0].cr)] + LossyLines(ls[1..])
  }

  lemma LossyFieldsFirst(fs: seq<seq<byte>>)
    requires |fs| > 0
    ensures LossyFields(fs)[0] == Lossy(fs[0]) && LossyFields(fs)[1..] == LossyFields(fs[1..])
  {
  }

  /** Replacing malformed text works field by field. */
  lemma {:induction false} TabbedIsReplaced(fs: seq<seq<byte>>)
    requires AreFields(fs)
    ensures AreFields(LossyFields(fs)) && Lossy(Tabbed(fs)) == Tabbed(LossyFields(fs))
  {
    LossyFieldsFirst(fs);
    LossyBringsNoAscii(fs[0], 9);
    LossyBringsNoAscii(fs[0], 10);
    if |fs| > 1 {
      TabbedIsReplaced(fs[1..]);
      LossySplit(fs[0], 9, Tabbed(fs[1..]));
    }
  }

  /** The last byte becomes an ASCII character only if it was that one. */
  lemma {:induction false} LossyEnd(s: seq<byte>, c: byte)
    requires c < 128 && EndsIn(Lossy(s), c)
    ensures EndsIn(s, c)
    decreases |s|
  {
    if s != [] {
      var n := First(s).size;
      if n < |s| {
        assert Lossy(s[n..]) != [];
        LossyEnd(s[n..], c);
      } else {
        assert s[n..] == [] && s[..n] == s;
      }
    }
  }

  lemma LineIsReplaced(l: Line, rest: seq<byte>)
    requires IsLine(l)
    ensures var r := Line(LossyFields(l.fields), l.cr);
            IsLine(r) && Lossy(LineText(l) + ([10] + rest)) == LineText(r) + ([10] + Lossy(rest))
  {
    TabbedIsReplaced(l.fields);
    if EndsIn(Lossy(Tabbed(l.fields)), 13) {
      LossyEnd(Tabbed(l.fields), 13);
    }
    LossySplit(LineText(l), 10, rest);
    if l.cr {
      LossySplit(Tabbed(l.fields), 13, []);
      assert [13] + [] == [13];
    } else {
      assert LineText(l) == Tabbed(l.fields);
    }
  }

  lemma {:induction false} TextIsReplaced(ls: seq<Line>)
    requires AreLines(ls)
    ensures AreLines(LossyLines(ls)) && Lossy(Text(ls)) == Text(LossyLines(ls))
  {
    if ls != [] {
      LineIsReplaced(ls[0], Text(ls[1..]));
      TextIsReplaced(ls[1..]);
      assert LossyLines(ls)[1..] == LossyLines(ls[1..]);
    }
  }

  /** Whatever bytes a module list holds, it gives the modules that its lines name once malformed text is replaced. */
  lemma ModuleListIsParsed(ls: seq<Line>)
    requires AreLines(ls)
    ensures ModulesOf(Lines(Lossy(Text(ls)))) == NamedIn(LossyLines(ls))
  {
    TextIsReplaced(ls);
    LinesAreParsed(LossyLines(ls));
  }

  /** A field to store: some trimmed text, without tabs and newlines. */
  predicate IsField(s: seq<byte>) {
    |s| > 0 && IsUtf8(s) && IsTrimmed(s) && Lacks(s, 9) && Lacks(s, 10)
  }

  lemma LossyFieldsThree(a: seq<byte>, b: seq<byte>, c: seq<byte>, more: seq<seq<byte>>)
    ensures var fs := LossyFields([a, b, c] + more);
            |fs| >= 3 && fs[0] == Lossy(a) && fs[1] == Lossy(b) && fs[2] == Lossy(c)
  {
    var fs := [a, b, c] + more;
    assert fs[1..] == [b, c] + more && fs[1..][1..] == [c] + more;
    LossyFieldsFirst(fs);
    LossyFieldsFirst(fs[1..]);
    LossyFieldsFirst(fs[1..][1..]);
  }

  lemma FieldIsKept(s: seq<byte>)
    requires IsField(s)
    ensures Trim(Lossy(s)) == s
  {
    LossyKeepsUtf8(s);
  }

  /** A record keeps its path and version as they are, whatever fields follow and however malformed these are. */
  lemma RecordIsNamed(key: seq<byte>, m: Module, more: seq<seq<byte>>)
    requires key == [109, 111, 100] || key == [100, 101, 112]
    requires IsField(m.path) && IsField(m.version)
    ensures Named(LossyFields([key, m.path, m.version] + more)) == [m]
  {
    LossyFieldsThree(key, m.path, m.version, more);
    assert Lossy(key) == key by {
      AsciiIsUtf8(key);
      LossyKeepsUtf8(key);
    }
    FieldIsKept(m.path);
    FieldIsKept(m.version);
  }

  // ---------------------------------------------------------------- the whole file

  lemma {:induction false} TextEndsInNewline(ls: seq<Line>)
    requires AreLines(ls) && ls != []
    ensures EndsIn(Text(ls), 10)
    decreases |ls|
  {
    if |ls| > 1 {
      TextEndsInNewline(ls[1..]);
    }
  }

  lemma FramedModinfo(ls: seq<Line>, before: seq<byte>, after: seq<byte>)
    requires |before| == |after| == 16 && AreLines(ls)
    ensures var modinfo := before + Text(ls) + after;
            (match ModinfoText(modinfo) case None => [] case Some(text) => ModulesOf(Lines(Lossy(text))))
            == NamedIn(LossyLines(ls))
  {
    var modinfo := before + Text(ls) + after;
    ModuleListIsParsed(ls);
    if ls != [] {
      TextEndsInNewline(ls);
      assert modinfo[|modinfo| - 17] == Text(ls)[|Text(ls)| - 1];
      assert modinfo[16..|modinfo| - 16] == Text(ls);
    }
  }

  lemma TwoStringsAreRead(version: seq<byte>, modinfo: seq<byte>, suffix: seq<byte>)
    requires |version| + 10 < U64 && |modinfo| + 10 < U64
    ensures var tail := EncodeGoString(modinfo) + suffix;
            && DecodeGoString(EncodeGoString(version) + tail) == Some(GoString(version, tail))
            && DecodeGoString(tail) == Some(GoString(modinfo, suffix))
  {
    GoStringRoundTrip(version, EncodeGoString(modinfo) + suffix);
    GoStringRoundTrip(modinfo, suffix);
  }

  lemma InfoIsReadAfterHeader(version: seq<byte>, before: seq<byte>, ls: seq<Line>, after: seq<byte>, suffix: seq<byte>)
    requires |before| == |after| == 16 && AreLines(ls)
    requires |version| + 10 < U64 && |Text(ls)| + 42 < U64
    ensures InfoAfterHeader(EncodeGoString(version) + (EncodeGoString(before + Text(ls) + after) + suffix))
         == Some(BuildInfo(Trim(Lossy(version)), NamedIn(LossyLines(ls))))
  {
    TwoStringsAreRead(version, before + Text(ls) + after, suffix);
    FramedModinfo(ls, before, after);
  }

  /** Without the frame, or a newline in front of its end, the version alone is read. */
  lemma VersionIsReadAlone(version: seq<byte>, modinfo: seq<byte>, suffix: seq<byte>)
    requires |version| + 10 < U64 && |modinfo| + 10 < U64
    requires |modinfo| < 33 || modinfo[|modinfo| - 17] != 10
    ensures InfoAfterHeader(EncodeGoString(version) + (EncodeGoString(modinfo) + suffix))
         == Some(BuildInfo(Trim(Lossy(version)), []))
  {
    TwoStringsAreRead(version, modinfo, suffix);
  }

  /** A string cut short, in its length or in its bytes, is refused. */
  lemma CutStringIsRefused(text: seq<byte>, cut: nat)
    requires |text| < U64 && cut < |EncodeGoString(text)|
    ensures DecodeGoString(EncodeGoString(text)[..cut]) == None
  {
    var head, data := EncodeUvarint(|text|), EncodeGoString(text)[..cut];
    EncodedShape(|text|);
    if cut < |head| {
      LengthOfWord(|text|);
      EndlessIsRefused(data);
    } else {
      assert data == head + text[..cut - |head|];
      UvarintRoundTrip(|text|, text[..cut - |head|]);
    }
  }

  /** So a block whose version is cut gives nothing. */
  lemma CutVersionIsRefused(version: seq<byte>, cut: nat)
    requires |version| < U64 && cut < |EncodeGoString(version)|
    ensures InfoAfterHeader(EncodeGoString(version)[..cut]) == None
  {
    CutStringIsRefused(version, cut);
  }

  /** And so does one whose module list is cut. */
  lemma CutListIsRefused(version: seq<byte>, modinfo: seq<byte>, cut: nat)
    requires |version| + 10 < U64 && |modinfo| + 10 < U64 && cut < |EncodeGoString(modinfo)|
    ensures InfoAfterHeader(EncodeGoString(version) + EncodeGoString(modinfo)[..cut]) == None
  {
    GoStringRoundTrip(version, EncodeGoString(modinfo)[..cut]);
    CutStringIsRefused(modinfo, cut);
  }

  /** The linker's layout: magic, pointer size, flags, padding to 32 bytes, and what stands behind. */
  function Block(pointerSize: byte, flags: byte, padding: seq<byte>, strings: seq<byte>): seq<byte> {
    [0xff, 0x20, 0x47, 0x6f, 0x20, 0x62, 0x75, 0x69, 0x6c, 0x64, 0x69, 0x6e, 0x66, 0x3a]
    + ([pointerSize, flags] + (padding + strings))
  }

  lemma BlockLayout(prefix: seq<byte>, pointerSize: byte, flags: byte, padding: seq<byte>, strings: seq<byte>)
    requires |padding| == 16
    ensures var at := |prefix|;
            var bytes := prefix + Block(pointerSize, flags, padding, strings);
            MagicAt(bytes, at) && at + 32 <= |bytes| && bytes[at + 15] == flags && bytes[at + 32..] == strings
  {
    var at := |prefix|;
    var bytes := prefix + Block(pointerSize, flags, padding, strings);
    assert bytes[at..at + 14] == Magic();
  }

  lemma FirstMagicIsFound(bytes: seq<byte>, at: nat)
    requires MagicAt(bytes, at) && forall k | 0 <= k < at :: !MagicAt(bytes, k)
    ensures FindMagic(bytes, 0) == Some(at)
  {
  }

  lemma BlockIsRead(bytes: seq<byte>, at: nat, flags: byte, data: seq<byte>)
    requires MagicAt(bytes, at) && forall k | 0 <= k < at :: !MagicAt(bytes, k)
    requires at + 32 <= |bytes| && bytes[at + 15] == flags && bytes[at + 32..] == data
    ensures Read(bytes) == if (flags / 2) % 2 == 1 then InfoAfterHeader(data) else None
  {
    FirstMagicIsFound(bytes, at);
  }

  /** Bytes without the magic, or with less than 32 bytes from the first one on, hold no block. */
  lemma NoBlock(bytes: seq<byte>)
    requires forall k: nat | k + 32 <= |bytes| ::
               !HoldsAt(bytes, k, [0xff, 0x20, 0x47, 0x6f, 0x20, 0x62, 0x75, 0x69, 0x6c, 0x64, 0x69, 0x6e, 0x66, 0x3a])
    ensures Read(bytes) == None
  {
    if FindMagic(bytes, 0).Some? {
      var at := FindMagic(bytes, 0).value;
      assert HoldsAt(bytes, at, Magic());
    }
  }

  /**
   Wherever the block stands in a file, its magic the first one: if its flags say that the strings are inline,
   what the strings hold is read; otherwise nothing is.
   */
  lemma FlagsDecide(prefix: seq<byte>, pointerSize: byte, flags: byte, padding: seq<byte>, strings: seq<byte>)
    requires |padding| == 16
    requires var bytes := prefix + Block(pointerSize, flags, padding, strings);
             forall k | 0 <= k < |prefix| :: !MagicAt(bytes, k)
    ensures Read(prefix + Block(pointerSize, flags, padding, strings))
         == if (flags / 2) % 2 == 1 then InfoAfterHeader(strings) else None
  {
    BlockLayout(prefix, pointerSize, flags, padding, strings);
    BlockIsRead(prefix + Block(pointerSize, flags, padding, strings), |prefix|, flags, strings);
  }

  /** The block is read back in full: the version, and the modules that the lines of its list name, in order. */
  lemma BuildInfoRoundTrip(prefix: seq<byte>, pointerSize: byte, flags: byte, padding: seq<byte>, version: seq<byte>,
                           before: seq<byte>, ls: seq<Line>, after: seq<byte>, suffix: seq<byte>)
    requires |padding| == |before| == |after| == 16 && AreLines(ls)
    requires |version| + 10 < U64 && |Text(ls)| + 42 < U64
    requires var strings := EncodeGoString(version) + (EncodeGoString(before + Text(ls) + after) + suffix);
             forall k | 0 <= k < |prefix| :: !MagicAt(prefix + Block(pointerSize, flags, padding, strings), k)
    ensures var strings := EncodeGoString(version) + (EncodeGoString(before + Text(ls) + after) + suffix);
            Read(prefix + Block(pointerSize, flags, padding, strings))
            == if (flags / 2) % 2 == 1 then Some(BuildInfo(Trim(Lossy(version)), NamedIn(LossyLines(ls)))) else None
  {
    var strings := EncodeGoString(version) + (EncodeGoString(before + Text(ls) + after) + suffix);
    FlagsDecide(prefix, pointerSize, flags, padding, strings);
    InfoIsReadAfterHeader(version, before, ls, after, suffix);
  }

  /** A version that is UTF-8 and neither begins nor ends in whitespace comes back as it is. */
  lemma VersionRoundTrip(version: seq<byte>, before: seq<byte>, ls: seq<Line>, after: seq<byte>, suffix: seq<byte>)
    requires |before| == |after| == 16 && AreLines(ls) && IsUtf8(version) && IsTrimmed(version)
    requires |version| + 10 < U64 && |Text(ls)| + 42 < U64
    ensures InfoAfterHeader(EncodeGoString(version) + (EncodeGoString(before + Text(ls) + after) + suffix))
         == Some(BuildInfo(version, NamedIn(LossyLines(ls))))
  {
    InfoIsReadAfterHeader(version, before, ls, after, suffix);
    LossyKeepsUtf8(version);
  }
}
