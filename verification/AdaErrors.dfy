/** What the lexer makes of malformed text, character by character, and how far each error reaches. */
module AdaErrors {
  import opened Common
  import opened AdaTokens
  import opened AdaScan
  import opened AdaRoundTrip
  import opened AdaManual
  import opened AdaTiling
  import Utf8Characters

  /** The characters of the White_Space property. */
  predicate Blank(c: char) {
    (c as int) in [9, 10, 11, 12, 13, 32, 133, 160, 5760, 8192, 8193, 8194, 8195, 8196, 8197, 8198, 8199, 8200, 8201, 8202,
                   8232, 8233, 8239, 8287, 12288]
  }

  /** The characters at which a malformed based literal ends. */
  predicate EndsWord(c: char) {
    Blank(c) || c in "();,:=.<>/*+-&'\""
  }

  lemma EndsWordExactly(c: char)
    ensures EndsWord(c) <==> !IsWordish(c)
  {
    WhitespaceIsUnicodes(c);
  }

  // ---------------------------------------------------------------- based literals

  ghost predicate IsWordText(text: string) {
    forall k | 0 <= k < |text| :: !EndsWord(text[k])
  }

  lemma WordTextIsWordish(text: string)
    requires IsWordText(text)
    ensures All(text, IsWordish)
  {
    forall k | 0 <= k < |text|
      ensures IsWordish(text[k])
    {
      EndsWordExactly(text[k]);
    }
  }

  lemma DigitsUpToHash(text: string)
    requires IsWordText(text) && '#' !in text
    ensures All(text, IsBasedDigit)
  {
    WordTextIsWordish(text);
  }

  /** Where the parts of such a text stand. */
  lemma BrokenParts(s: string, base: string, digits: string, more: string, tail: string, hash: nat, close: nat, end: nat)
    requires s == base + ("#" + (digits + (more + tail)))
    requires hash == |base| && close == hash + 1 + |digits| && end == close + |more|
    ensures |s| == end + |tail| && StandsAt(s, 0, base) && s[hash] == '#' && StandsAt(s, hash + 1, digits)
    ensures StandsAt(s, close, more) && s[close..] == more + tail && s[end..] == tail
    ensures s[hash..] == "#" + (digits + (more + tail))
  {
    assert s[hash + 1..close] == digits && s[close..end] == more;
  }

  /** What ends a word, or nothing, ends a run of what does not. */
  lemma RunEnds(s: string, i: nat, text: string, tail: string)
    requires IsWordText(text) && StandsAt(s, i, text) && s[i + |text|..] == tail && (tail == "" || EndsWord(tail[0]))
    ensures SkipWhile(s, i, IsWordish) == i + |text|
  {
    WordTextIsWordish(text);
    if tail != "" {
      EndsWordExactly(tail[0]);
    }
    RunIs(s, i, text, IsWordish);
  }

  lemma DigitsEnd(s: string, i: nat, digits: string, rest: string)
    requires IsWordText(digits) && '#' !in digits && StandsAt(s, i, digits) && s[i + |digits|..] == rest
    requires rest == "" || rest[0] == '#' || EndsWord(rest[0])
    ensures SkipWhile(s, i, IsBasedDigit) == i + |digits|
  {
    DigitsUpToHash(digits);
    if rest != "" {
      EndsWordExactly(rest[0]);
    }
    RunIs(s, i, digits, IsBasedDigit);
  }

  lemma PartsAreRead(s: string, base: string, digits: string, more: string, tail: string, hash: nat, close: nat, end: nat)
    requires Numeral(base) && IsWordText(digits) && '#' !in digits && IsWordText(more) && (more == "" || more[0] == '#')
    requires tail == "" || EndsWord(tail[0])
    requires hash == |base| < |s| && close == hash + 1 + |digits| && end == close + |more| && |s| == end + |tail|
    requires StandsAt(s, 0, base) && s[hash] == '#' && StandsAt(s, hash + 1, digits) && StandsAt(s, close, more)
    requires s[close..] == more + tail && s[end..] == tail
    ensures IsDigit(s[0]) && SkipWhile(s, 0, IsNumeralChar) == hash && s[..hash] == base
    ensures BasedClose(s, hash) == close && SkipWhile(s, close, IsWordish) == end
  {
    assert s[hash..][0] == '#';
    WholeIsRead(s, 0, base);
    DigitsEnd(s, hash + 1, digits, more + tail);
    RunEnds(s, close, more, tail);
  }

  lemma MalformedIsScanned(s: string, base: string, hash: nat, close: nat, end: nat)
    requires 0 < hash < |s| && IsDigit(s[0]) && SkipWhile(s, 0, IsNumeralChar) == hash && s[hash] == '#' && s[..hash] == base
    requires BasedClose(s, hash) == close && SkipWhile(s, close, IsWordish) == end
    requires !ValidBase(base) || close == hash + 1 || close == |s| || s[close] != '#'
    ensures ScanNumber(s, 0) == Scanned(Error("malformed based literal"), end, end)
  {
    assert s[0..hash] == base;
  }

  lemma BrokenIsMalformed(s: string, base: string, digits: string, more: string, tail: string, hash: nat, close: nat)
    requires tail == "" || EndsWord(tail[0])
    requires !(2 <= Worth(base, 0) <= 16) || digits == "" || more == ""
    requires close == hash + 1 + |digits| <= |s| && s[close..] == more + tail
    ensures !ValidBase(base) || close == hash + 1 || close == |s| || s[close] != '#'
  {
    WorthIsValue(base);
    if more == "" && tail != "" {
      assert s[close] == s[close..][0] == tail[0];
    }
  }

  lemma BrokenIsScanned(s: string, base: string, digits: string, more: string, tail: string, hash: nat, close: nat, end: nat)
    requires Numeral(base) && IsWordText(digits) && '#' !in digits && IsWordText(more) && (more == "" || more[0] == '#')
    requires tail == "" || EndsWord(tail[0])
    requires !(2 <= Worth(base, 0) <= 16) || digits == "" || more == ""
    requires hash == |base| < |s| && close == hash + 1 + |digits| && end == close + |more| && |s| == end + |tail|
    requires StandsAt(s, 0, base) && s[hash] == '#' && StandsAt(s, hash + 1, digits) && StandsAt(s, close, more)
    requires s[close..] == more + tail && s[end..] == tail
    ensures IsDigit(s[0]) && ScanNumber(s, 0) == Scanned(Error("malformed based literal"), end, end)
  {
    PartsAreRead(s, base, digits, more, tail, hash, close, end);
    BrokenIsMalformed(s, base, digits, more, tail, hash, close);
    MalformedIsScanned(s, base, hash, close, end);
  }

  /**
   A base outside 2 to 16, no digits, or no second `#`: one error over everything up to the next blank or mark,
   further `#` included.
   */
  lemma MalformedBasedIsCovered(base: string, digits: string, more: string, tail: string)
    requires Numeral(base) && IsWordText(digits) && '#' !in digits && IsWordText(more) && (more == "" || more[0] == '#')
    requires tail == "" || EndsWord(tail[0])
    requires !(2 <= Worth(base, 0) <= 16) || digits == "" || more == ""
    ensures var s := base + ("#" + (digits + (more + tail)));
            IsDigit(s[0])
            && ScanNumber(s, 0) == Scanned(Error("malformed based literal"), |s| - |tail|, |s| - |tail|)
  {
    var s := base + ("#" + (digits + (more + tail)));
    var close := |base| + 1 + |digits|;
    BrokenParts(s, base, digits, more, tail, |base|, close, close + |more|);
    BrokenIsScanned(s, base, digits, more, tail, |base|, close, close + |more|);
  }

  /** A single character between hashes is a based literal exactly when it is no hash and ends no word. */
  lemma OneDigitBased(c: char)
    ensures var s := "16#" + [c] + "#"; IsDigit(s[0]) && (ScanNumber(s, 0).kind.BasedLiteral? <==> c != '#' && !EndsWord(c))
  {
    var s := "16#" + [c] + "#";
    assert s[0..2] == "16" && s[2] == '#' && s[3] == c && s[4] == '#';
    assert SkipWhile(s, 0, IsNumeralChar) == 2 by { SkipWhileIs(s, 0, IsNumeralChar, 2); }
    assert NumeralValue("16") == 16 by {
      assert "16"[..1] == "1" && "1"[..0] == "";
    }
    EndsWordExactly(c);
    if IsBasedDigit(c) {
      SkipWhileIs(s, 3, IsBasedDigit, 4);
    } else {
      SkipWhileIs(s, 3, IsBasedDigit, 3);
    }
  }

  // ------------------------------------------------------------- strings and the rest

  /** A string that no quote ends before the line does is one error up to there. */
  lemma UnterminatedStringIsCovered(content: string, tail: string)
    requires '\n' !in content && (tail == "" || tail[0] == '\n')
    ensures var s := "\"" + (DoubleQuotes(content) + tail);
            ScanString(s, 0) == Scanned(Error("unterminated string literal"), |s| - |tail|, |s| - |tail|)
  {
    var s := "\"" + (DoubleQuotes(content) + tail);
    var end := 1 + |DoubleQuotes(content)|;
    assert s[1..end] == DoubleQuotes(content) && s[end..] == tail;
    ContentIsRead(s, 1, content, "");
    assert end < |s| ==> s[end] == tail[0];
  }

  /** A character that begins nothing is an error of its own, named in it, whatever follows. */
  lemma UnexpectedCharacterIsCovered(c: char, rest: string, reserved: WordTable, attribute: bool)
    requires !Letter(c) && !Digit(c) && !EndsWord(c)
    ensures !IsWhitespace(c)
    ensures Scan([c] + rest, 0, reserved, attribute) == Scanned(Error("unexpected character '" + [c] + "'"), 1, 1)
  {
    EndsWordExactly(c);
    assert ([c] + rest)[0] == c;
  }

  // ------------------------------------------------------------------- byte offsets

  /** The code points of a text. */
  function CodePoints(s: string): (cs: seq<int>)
    ensures |cs| == |s|
  {
    if s == "" then [] else CodePoints(s[..|s| - 1]) + [s[|s| - 1] as int]
  }

  lemma {:induction false} ScalarsAppend(cs: seq<int>, c: int)
    requires Utf8Characters.AreScalars(cs) && Utf8Characters.IsScalar(c)
    ensures Utf8Characters.AreScalars(cs + [c])
  {
    if cs == [] {
      assert cs + [c] == [c];
    } else {
      assert (cs + [c])[1..] == cs[1..] + [c] && (cs + [c])[0] == cs[0];
      ScalarsAppend(cs[1..], c);
    }
  }

  /** The byte offset of a place is the length of the UTF-8 encoding of the text in front of it. */
  lemma {:induction false} ByteOffsetIsEncodedLength(s: string, i: nat)
    requires i <= |s|
    ensures Utf8Characters.AreScalars(CodePoints(s[..i]))
    ensures ByteOffset(s, i) == |Utf8Characters.EncodeText(CodePoints(s[..i]))|
  {
    if i > 0 {
      var c := s[i - 1] as int;
      ByteOffsetIsEncodedLength(s, i - 1);
      assert s[..i][..i - 1] == s[..i - 1];
      var before := CodePoints(s[..i - 1]);
      ScalarsAppend(before, c);
      Utf8Characters.JoinedLast(Utf8Characters.Encoder(), before, c);
      Utf8Characters.EncoderOf(c);
    }
  }
}
