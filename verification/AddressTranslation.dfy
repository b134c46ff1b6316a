/** From virtual addresses to file offsets, over ELF program headers and PE section headers. */
module AddressTranslation {
  import opened Common
  import opened Bytes

  const PT_LOAD := 1

  /** Words are below 2^64. */
  datatype ElfHeader = ElfHeader(segmentType: nat, fileOffset: nat, virtualAddress: nat, fileSize: nat, memorySize: nat)

  /** Words are below 2^32. */
  datatype PeSection = PeSection(virtualSize: nat, virtualAddress: nat, rawSize: nat, rawPointer: nat)

  /** What both translators see of a header: where an image lies in memory and where in the file. */
  datatype Image = Image(address: nat, size: nat, file: nat)

  function ElfImage(h: ElfHeader): Image {
    Image(h.virtualAddress, Min(h.fileSize, h.memorySize), h.fileOffset)
  }

  function PeImage(s: PeSection): Image {
    Image(s.virtualAddress, Max(s.virtualSize, s.rawSize), s.rawPointer)
  }

  function ElfImages(headers: seq<ElfHeader>): seq<Image> {
    if headers == [] then []
    else
      var h := headers[0];
      (if h.segmentType == PT_LOAD then [ElfImage(h)] else [])
      + ElfImages(headers[1..])
  }

  function PeImages(sections: seq<PeSection>): (images: seq<Image>)
    ensures |images| == |sections|
  {
    if sections == [] then []
    else
      [PeImage(sections[0])] + PeImages(sections[1..])
  }

  /** `n` bytes at `a`, counted in words below `word`, lie in the image. */
  predicate Covers(image: Image, a: nat, n: nat, word: nat) {
    a >= image.address && a - image.address + n < word && a - image.address + n <= image.size
  }

  /** The first image that covers the range decides, even when its file offset then overflows. */
  function Translate(images: seq<Image>, a: nat, n: nat, word: nat): Option<nat> {
    if images == [] then None
    else if !Covers(images[0], a, n, word) then Translate(images[1..], a, n, word)
    else
      var f := images[0].file + (a - images[0].address);
      if f < word then Some(f) else None
  }

  // --------------------------------------------------------- the source's loops

  method ElfVirtualAddressToFileOffset(headers: seq<ElfHeader>, address: nat, size: nat) returns (r: Option<nat>)
    ensures r == Translate(ElfImages(headers), address, size, U64)
  {
    for i := 0 to |headers|
      invariant Translate(ElfImages(headers), address, size, U64) == Translate(ElfImages(headers[i..]), address, size, U64)
    {
      var header := headers[i];
      assert headers[i..][1..] == headers[i + 1..];
      if header.segmentType != PT_LOAD {
        assert ElfImages(headers[i..]) == ElfImages(headers[i + 1..]);
        continue;
      }
      var image := Image(header.virtualAddress, Min(header.fileSize, header.memorySize), header.fileOffset);
      assert ElfImages(headers[i..]) == [image] + ElfImages(headers[i + 1..]);
      if address < image.address {
        continue;
      }
      var delta := address - image.address;
      if delta + size >= U64 || delta + size > image.size {
        continue;
      }
      return if image.file + delta < U64 then Some(image.file + delta) else None;
    }
    assert headers[|headers|..] == [];
    return None;
  }

  method PeRvaToFileOffset(sections: seq<PeSection>, rva: nat, size: nat) returns (r: Option<nat>)
    ensures r == Translate(PeImages(sections), rva, size, U32)
  {
    for i := 0 to |sections|
      invariant Translate(PeImages(sections), rva, size, U32) == Translate(PeImages(sections[i..]), rva, size, U32)
    {
      var section := sections[i];
      assert sections[i..][1..] == sections[i + 1..];
      var sectionSize := Max(section.virtualSize, section.rawSize);
      assert PeImages(sections[i..])[1..] == PeImages(sections[i + 1..]);
      if rva < section.virtualAddress {
        continue;
      }
      var delta := rva - section.virtualAddress;
      if delta + size >= U32 || delta + size > sectionSize {
        continue;
      }
      return if section.rawPointer + delta < U32 then Some(section.rawPointer + delta) else None;
    }
    assert sections[|sections|..] == [];
    return None;
  }

  // --------------------------------------------------------------- properties

  predicate Apart(x: Image, y: Image) {
    x.address + x.size <= y.address || y.address + y.size <= x.address
  }

  ghost predicate Disjoint(images: seq<Image>) {
    forall i, j | 0 <= i < j < |images| :: Apart(images[i], images[j])
  }

  ghost predicate FilesFit(images: seq<Image>, word: nat) {
    forall i | 0 <= i < |images| :: images[i].file + images[i].size < word
  }

  /** An answer comes from an image that covers the whole range. */
  lemma {:induction false} AnswerLiesInOneImage(images: seq<Image>, a: nat, n: nat, word: nat) returns (i: nat)
    requires Translate(images, a, n, word).Some?
    ensures i < |images| && Covers(images[i], a, n, word)
    ensures Translate(images, a, n, word) == Some(images[i].file + (a - images[i].address))
    ensures forall j | 0 <= j < i :: !Covers(images[j], a, n, word)
  {
    if Covers(images[0], a, n, word) {
      i := 0;
    } else {
      var k := AnswerLiesInOneImage(images[1..], a, n, word);
      i := k + 1;
      assert forall j | 0 < j < i :: images[j] == images[1..][j - 1];
    }
  }

  /** With disjoint images no other image covers any byte of the range, so the order cannot matter. */
  lemma {:induction false} CoveringImageDecides(images: seq<Image>, i: nat, a: nat, n: nat, word: nat)
    requires Disjoint(images) && FilesFit(images, word) && n > 0
    requires i < |images| && Covers(images[i], a, n, word)
    ensures Translate(images, a, n, word) == Some(images[i].file + (a - images[i].address))
  {
    if i > 0 {
      assert Apart(images[0], images[i]);
      var rest := images[1..];
      assert forall j | 0 <= j < |rest| :: rest[j] == images[j + 1];
      CoveringImageDecides(rest, i - 1, a, n, word);
    }
  }

  /** Translation is linear inside what one answer covers. */
  lemma SubrangesAreShifted(images: seq<Image>, a: nat, n: nat, k: nat, m: nat, word: nat)
    requires Disjoint(images) && FilesFit(images, word)
    requires Translate(images, a, n, word).Some? && m > 0 && k + m <= n
    ensures Translate(images, a + k, m, word) == Some(Translate(images, a, n, word).value + k)
  {
    var i := AnswerLiesInOneImage(images, a, n, word);
    CoveringImageDecides(images, i, a + k, m, word);
  }

  /** What an image makes of an address in it, were it the one to decide. */
  function Answer(image: Image, a: nat, word: nat): Option<nat>
    requires a >= image.address
  {
    var f := image.file + (a - image.address);
    if f < word then Some(f) else None
  }

  /** All the images that cover the range make the same of it. */
  ghost predicate Agreed(images: seq<Image>, a: nat, n: nat, word: nat) {
    forall i, j | 0 <= i < |images| && 0 <= j < |images| && Covers(images[i], a, n, word) && Covers(images[j], a, n, word) ::
      Answer(images[i], a, word) == Answer(images[j], a, word)
  }

  ghost predicate SameElements<T(!new)>(xs: seq<T>, ys: seq<T>) {
    forall x :: x in xs <==> x in ys
  }

  /** The first covering image decides, whatever it answers; without one there is no answer. */
  lemma {:induction false} FirstCoveringDecides(images: seq<Image>, a: nat, n: nat, word: nat)
    ensures (forall j | 0 <= j < |images| :: !Covers(images[j], a, n, word)) ==> Translate(images, a, n, word) == None
    ensures (exists j :: 0 <= j < |images| && Covers(images[j], a, n, word)) ==>
              exists i :: 0 <= i < |images| && Covers(images[i], a, n, word)
                          && Translate(images, a, n, word) == Answer(images[i], a, word)
  {
    if images != [] {
      var rest := images[1..];
      if Covers(images[0], a, n, word) {
        assert Translate(images, a, n, word) == Answer(images[0], a, word);
      } else {
        FirstCoveringDecides(rest, a, n, word);
        assert forall j | 0 < j < |images| :: images[j] == rest[j - 1];
        if j :| 0 <= j < |images| && Covers(images[j], a, n, word) {
          assert Covers(rest[j - 1], a, n, word);
          var i :| 0 <= i < |rest| && Covers(rest[i], a, n, word) && Translate(rest, a, n, word) == Answer(rest[i], a, word);
          assert images[i + 1] == rest[i];
        }
      }
    }
  }

  /** Any agreed covering image gives the answer. */
  lemma AgreedAnswer(images: seq<Image>, i: nat, a: nat, n: nat, word: nat)
    requires Agreed(images, a, n, word) && i < |images| && Covers(images[i], a, n, word)
    ensures Translate(images, a, n, word) == Answer(images[i], a, word)
  {
    FirstCoveringDecides(images, a, n, word);
  }

  /** Where the covering images agree, only which images there are matters. */
  lemma AgreedInAnyOrder(xs: seq<Image>, ys: seq<Image>, a: nat, n: nat, word: nat)
    requires Agreed(xs, a, n, word) && SameElements(xs, ys)
    ensures Translate(ys, a, n, word) == Translate(xs, a, n, word)
  {
    if i :| 0 <= i < |ys| && Covers(ys[i], a, n, word) {
      FirstCoveringDecides(ys, a, n, word);
      var k :| 0 <= k < |ys| && Covers(ys[k], a, n, word) && Translate(ys, a, n, word) == Answer(ys[k], a, word);
      assert ys[k] in ys;
      var j :| 0 <= j < |xs| && xs[j] == ys[k];
      AgreedAnswer(xs, j, a, n, word);
    } else {
      FirstCoveringDecides(ys, a, n, word);
      forall j | 0 <= j < |xs|
        ensures !Covers(xs[j], a, n, word)
      {
        assert xs[j] in xs;
        var i :| 0 <= i < |ys| && ys[i] == xs[j];
      }
      FirstCoveringDecides(xs, a, n, word);
    }
  }

  /** No reordering of the images changes the answer. */
  ghost predicate OrderIsIrrelevant(xs: seq<Image>, a: nat, n: nat, word: nat) {
    forall ys: seq<Image> | multiset(ys) == multiset(xs) :: Translate(ys, a, n, word) == Translate(xs, a, n, word)
  }

  lemma SameMultiset<T(!new)>(xs: seq<T>, ys: seq<T>)
    requires multiset(xs) == multiset(ys)
    ensures SameElements(xs, ys)
  {
    assert forall x :: x in xs <==> x in multiset(xs);
    assert forall y :: y in ys <==> y in multiset(ys);
  }

  /** Moved to the front, a covering image decides. */
  lemma MovedToFront(xs: seq<Image>, i: nat, a: nat, n: nat, word: nat)
    requires i < |xs| && Covers(xs[i], a, n, word)
    ensures var ys := [xs[i]] + (xs[..i] + xs[i + 1..]);
            multiset(ys) == multiset(xs) && Translate(ys, a, n, word) == Answer(xs[i], a, word)
  {
    assert xs == xs[..i] + [xs[i]] + xs[i + 1..];
  }

  /** The order of the images is irrelevant to a range exactly when the images that cover it agree. */
  lemma OrderIsIrrelevantExactly(xs: seq<Image>, a: nat, n: nat, word: nat)
    ensures OrderIsIrrelevant(xs, a, n, word) <==> Agreed(xs, a, n, word)
  {
    if Agreed(xs, a, n, word) {
      forall ys: seq<Image> | multiset(ys) == multiset(xs)
        ensures Translate(ys, a, n, word) == Translate(xs, a, n, word)
      {
        SameMultiset(xs, ys);
        AgreedInAnyOrder(xs, ys, a, n, word);
      }
    }
    if OrderIsIrrelevant(xs, a, n, word) {
      forall i, j | 0 <= i < |xs| && 0 <= j < |xs| && Covers(xs[i], a, n, word) && Covers(xs[j], a, n, word)
        ensures Answer(xs[i], a, word) == Answer(xs[j], a, word)
      {
        MovedToFront(xs, i, a, n, word);
        MovedToFront(xs, j, a, n, word);
      }
    }
  }

  lemma CoversMeet(x: Image, y: Image, a: nat, n: nat, word: nat)
    requires Covers(x, a, n, word) && Covers(y, a, n, word) && n > 0
    ensures !Apart(x, y) && !Apart(y, x)
  {
  }

  /** Disjoint images agree on every range that is not empty: at most one covers it. */
  lemma DisjointAgree(images: seq<Image>, a: nat, n: nat, word: nat)
    requires Disjoint(images) && n > 0
    ensures Agreed(images, a, n, word)
  {
    forall i, j | 0 <= i < |images| && 0 <= j < |images| && Covers(images[i], a, n, word) && Covers(images[j], a, n, word)
      ensures i == j
    {
      CoversMeet(images[i], images[j], a, n, word);
    }
  }

  /** So over disjoint images no order changes the answer for a range that is not empty. */
  lemma OrderDoesNotMatter(xs: seq<Image>, ys: seq<Image>, a: nat, n: nat, word: nat)
    requires Disjoint(xs) && n > 0 && SameElements(xs, ys)
    ensures Translate(xs, a, n, word) == Translate(ys, a, n, word)
  {
    DisjointAgree(xs, a, n, word);
    AgreedInAnyOrder(xs, ys, a, n, word);
  }

  /** On the seam of two images an empty range keeps its answer exactly when their files meet there as well. */
  lemma SeamDependsOnOrderExactly(x: Image, y: Image, word: nat)
    requires x.address + x.size == y.address && FilesFit([x, y], word)
    ensures var a := y.address;
            && Disjoint([x, y]) && Disjoint([y, x])
            && Translate([x, y], a, 0, word) == Some(x.file + x.size)
            && Translate([y, x], a, 0, word) == Some(y.file)
            && (Translate([x, y], a, 0, word) == Translate([y, x], a, 0, word) <==> x.file + x.size == y.file)
  {
    assert [x, y][0] == x && [x, y][1] == y;
    assert [y, x][1..] == [x];
  }

  /** Two disjoint images whose order decides what the empty range between them is translated to. */
  lemma EmptyRangeDependsOnOrder()
    ensures var x, y := Image(0, 0x1000, 0), Image(0x1000, 0x1000, 0x3000);
            && Disjoint([x, y]) && FilesFit([x, y], U32)
            && multiset([x, y]) == multiset([y, x])
            && Translate([x, y], 0x1000, 0, U32) != Translate([y, x], 0x1000, 0, U32)
  {
    var x, y := Image(0, 0x1000, 0), Image(0x1000, 0x1000, 0x3000);
    assert forall i | 0 <= i < 2 :: [x, y][i] == if i == 0 then x else y;
    assert multiset([x, y]) == multiset{x, y} == multiset([y, x]);
    SeamDependsOnOrderExactly(x, y, U32);
  }

  // -------------------------------------------------------- back to the headers

  /** The loadable images are pairwise apart. */
  ghost predicate ElfApart(headers: seq<ElfHeader>) {
    forall i, j | 0 <= i < j < |headers| && headers[i].segmentType == headers[j].segmentType == PT_LOAD ::
      Apart(ElfImage(headers[i]), ElfImage(headers[j]))
  }

  lemma {:induction false} ElfImagesAreThose(headers: seq<ElfHeader>, x: Image)
    ensures x in ElfImages(headers) <==>
            exists i :: 0 <= i < |headers| && headers[i].segmentType == PT_LOAD && ElfImage(headers[i]) == x
  {
    if headers != [] {
      var rest := headers[1..];
      ElfImagesAreThose(rest, x);
      if i :| 0 <= i < |rest| && rest[i].segmentType == PT_LOAD && ElfImage(rest[i]) == x {
        assert headers[i + 1] == rest[i];
      }
      if i :| 0 < i < |headers| && headers[i].segmentType == PT_LOAD && ElfImage(headers[i]) == x {
        assert rest[i - 1] == headers[i];
      }
    }
  }

  lemma {:induction false} ElfImagesAreDisjoint(headers: seq<ElfHeader>)
    requires ElfApart(headers)
    ensures Disjoint(ElfImages(headers))
  {
    if headers != [] {
      var rest, images := headers[1..], ElfImages(headers[1..]);
      assert forall i | 0 <= i < |rest| :: rest[i] == headers[i + 1];
      ElfImagesAreDisjoint(rest);
      if headers[0].segmentType == PT_LOAD {
        forall k | 0 <= k < |images|
          ensures Apart(ElfImage(headers[0]), images[k])
        {
          ElfImagesAreThose(rest, images[k]);
          var i :| 0 <= i < |rest| && rest[i].segmentType == PT_LOAD && ElfImage(rest[i]) == images[k];
          assert rest[i] == headers[i + 1];
        }
        assert ElfImages(headers) == [ElfImage(headers[0])] + images;
      }
    }
  }

  /** Disjoint loadable program headers in any order give the same answers to every non-empty query. */
  lemma ElfOrderDoesNotMatter(xs: seq<ElfHeader>, ys: seq<ElfHeader>, a: nat, n: nat)
    requires ElfApart(xs) && multiset(xs) == multiset(ys) && n > 0
    ensures Translate(ElfImages(xs), a, n, U64) == Translate(ElfImages(ys), a, n, U64)
  {
    ElfImagesAreDisjoint(xs);
    SameMultiset(xs, ys);
    forall x
      ensures x in ElfImages(xs) <==> x in ElfImages(ys)
    {
      ElfImagesAreThose(xs, x);
      ElfImagesAreThose(ys, x);
      SomeHeader(xs, ys, x);
      SomeHeader(ys, xs, x);
    }
    OrderDoesNotMatter(ElfImages(xs), ElfImages(ys), a, n, U64);
  }

  lemma SomeHeader(xs: seq<ElfHeader>, ys: seq<ElfHeader>, x: Image)
    requires forall h :: h in xs ==> h in ys
    ensures (exists i :: 0 <= i < |xs| && xs[i].segmentType == PT_LOAD && ElfImage(xs[i]) == x)
        ==> (exists i :: 0 <= i < |ys| && ys[i].segmentType == PT_LOAD && ElfImage(ys[i]) == x)
  {
    if i :| 0 <= i < |xs| && xs[i].segmentType == PT_LOAD && ElfImage(xs[i]) == x {
      assert xs[i] in ys;
    }
  }

  /** The sections, each as long as the larger of its two sizes, are pairwise apart. */
  ghost predicate PeApart(sections: seq<PeSection>) {
    forall i, j | 0 <= i < j < |sections| :: Apart(PeImage(sections[i]), PeImage(sections[j]))
  }

  lemma {:induction false} PeImageAt(sections: seq<PeSection>, i: nat)
    requires i < |sections|
    ensures PeImages(sections)[i] == PeImage(sections[i])
  {
    if i > 0 {
      PeImageAt(sections[1..], i - 1);
    }
  }

  lemma PeImagesAreDisjoint(sections: seq<PeSection>)
    requires PeApart(sections)
    ensures Disjoint(PeImages(sections))
  {
    forall i | 0 <= i < |sections|
      ensures PeImages(sections)[i] == PeImage(sections[i])
    {
      PeImageAt(sections, i);
    }
  }

  lemma PeImageElsewhere(xs: seq<PeSection>, ys: seq<PeSection>, x: Image)
    requires multiset(xs) == multiset(ys) && x in PeImages(xs)
    ensures x in PeImages(ys)
  {
    var i :| 0 <= i < |xs| && PeImages(xs)[i] == x;
    PeImageAt(xs, i);
    assert xs[i] in multiset(xs);
    assert xs[i] in multiset(ys);
    var j :| 0 <= j < |ys| && ys[j] == xs[i];
    PeImageAt(ys, j);
  }

  /** Disjoint sections in any order give the same answers to every non-empty query. */
  lemma PeOrderDoesNotMatter(xs: seq<PeSection>, ys: seq<PeSection>, a: nat, n: nat)
    requires PeApart(xs) && multiset(xs) == multiset(ys) && n > 0
    ensures Translate(PeImages(xs), a, n, U32) == Translate(PeImages(ys), a, n, U32)
  {
    PeImagesAreDisjoint(xs);
    forall x
      ensures x in PeImages(xs) <==> x in PeImages(ys)
    {
      if x in PeImages(xs) {
        PeImageElsewhere(xs, ys, x);
      }
      if x in PeImages(ys) {
        PeImageElsewhere(ys, xs, x);
      }
    }
    OrderDoesNotMatter(PeImages(xs), PeImages(ys), a, n, U32);
  }

  // ------------------------------------------------ the answer, told by the headers

  /** The loadable segment has the whole range in the file and in memory. */
  predicate ElfHolds(h: ElfHeader, a: nat, n: nat) {
    && h.segmentType == 1 && h.virtualAddress <= a
    && a + n <= h.virtualAddress + h.fileSize && a + n <= h.virtualAddress + h.memorySize
  }

  lemma ElfHoldsExactly(h: ElfHeader, a: nat, n: nat)
    requires h.fileSize < 0x1_0000_0000_0000_0000
    ensures h.segmentType == 1 && Covers(ElfImage(h), a, n, U64) <==> ElfHolds(h, a, n)
  {
  }

  /** The first loadable segment that has the range, if there is one, puts it behind its file offset; nothing else does. */
  lemma {:induction false} ElfFirstHeaderDecides(headers: seq<ElfHeader>, a: nat, n: nat, i: nat)
    requires forall j | 0 <= j < |headers| :: headers[j].fileSize < 0x1_0000_0000_0000_0000
    requires i <= |headers| && (forall j | 0 <= j < i :: !ElfHolds(headers[j], a, n))
    requires i < |headers| ==> ElfHolds(headers[i], a, n)
    ensures Translate(ElfImages(headers), a, n, U64)
         == if i == |headers| then None
            else var f := headers[i].fileOffset + (a - headers[i].virtualAddress);
                 if f < 0x1_0000_0000_0000_0000 then Some(f) else None
  {
    if headers != [] {
      ElfHoldsExactly(headers[0], a, n);
      ElfFirstImage(headers);
      if i > 0 {
        ElfFirstHeaderDecides(headers[1..], a, n, i - 1);
      }
    }
  }

  lemma ElfFirstImage(headers: seq<ElfHeader>)
    requires headers != []
    ensures headers[0].segmentType != PT_LOAD ==> ElfImages(headers) == ElfImages(headers[1..])
    ensures headers[0].segmentType == PT_LOAD ==>
              ElfImages(headers) != [] && ElfImages(headers)[0] == ElfImage(headers[0])
              && ElfImages(headers)[1..] == ElfImages(headers[1..])
  {
    assert [] + ElfImages(headers[1..]) == ElfImages(headers[1..]);
  }

  /** The section has the whole range in one of its two sizes. */
  predicate PeHolds(s: PeSection, a: nat, n: nat) {
    s.virtualAddress <= a && (a + n <= s.virtualAddress + s.virtualSize || a + n <= s.virtualAddress + s.rawSize)
  }

  lemma PeHoldsExactly(s: PeSection, a: nat, n: nat)
    requires s.virtualSize < 0x1_0000_0000 && s.rawSize < 0x1_0000_0000
    ensures Covers(PeImage(s), a, n, U32) <==> PeHolds(s, a, n)
  {
  }

  /** The first section that has the range, if there is one, puts it behind its raw data pointer; nothing else does. */
  lemma {:induction false} PeFirstSectionDecides(sections: seq<PeSection>, a: nat, n: nat, i: nat)
    requires forall j | 0 <= j < |sections| ::
               sections[j].virtualSize < 0x1_0000_0000 && sections[j].rawSize < 0x1_0000_0000
    requires i <= |sections| && (forall j | 0 <= j < i :: !PeHolds(sections[j], a, n))
    requires i < |sections| ==> PeHolds(sections[i], a, n)
    ensures Translate(PeImages(sections), a, n, U32)
         == if i == |sections| then None
            else var f := sections[i].rawPointer + (a - sections[i].virtualAddress);
                 if f < 0x1_0000_0000 then Some(f) else None
  {
    if sections != [] {
      PeHoldsExactly(sections[0], a, n);
      assert PeImages(sections)[1..] == PeImages(sections[1..]);
      if i > 0 {
        PeFirstSectionDecides(sections[1..], a, n, i - 1);
      }
    }
  }
}
