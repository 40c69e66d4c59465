/**
 What a PE file is, written down from the format apart from the reader: where its headers are and
 what they hold, which bytes an address stands for, and what an import table and a manifest
 resource say. The reader's answers are exactly these.
 */
module PeImage {
  import opened Wrappers
  import opened Text
  import opened Pe
  import opened PeFacts

  // ---------- numbers ----------

  /** The two bytes at `off` are `value`, low byte first. */
  predicate Has16(data: seq<Byte>, off: nat, value: nat) {
    off + 2 <= |data| && value < 0x1_0000 && data[off] == value % 0x100 && data[off + 1] == value / 0x100
  }

  /** The four bytes at `off` are `value`, low byte first. */
  predicate Has32(data: seq<Byte>, off: nat, value: nat) {
    off + 4 <= |data| && Has16(data, off, value % 0x1_0000) && Has16(data, off + 2, value / 0x1_0000)
  }

  lemma Has16Meaning(data: seq<Byte>, off: nat, value: nat)
    ensures Has16(data, off, value) <==> off + 2 <= |data| && At16(data, off) == value
  {
  }

  lemma Has32Meaning(data: seq<Byte>, off: nat, value: nat)
    ensures Has32(data, off, value) <==> off + 4 <= |data| && At32(data, off) == value
  {
    if off + 4 <= |data| {
      assert At32(data, off) == At16(data, off) + 0x1_0000 * At16(data, off + 2);
      Has16Meaning(data, off, value % 0x1_0000);
      Has16Meaning(data, off + 2, value / 0x1_0000);
    }
  }

  // ---------- headers ----------

  /** The entry of the section table at `base`. */
  predicate HoldsSection(data: seq<Byte>, base: nat, s: Section) {
    && base + 40 <= |data|
    && Has32(data, base + 8, s.virtualSize) && Has32(data, base + 12, s.virtualAddress)
    && Has32(data, base + 16, s.rawDataSize) && Has32(data, base + 20, s.rawDataPtr)
  }

  ghost predicate HoldsSections(data: seq<Byte>, base: nat, sections: seq<Section>) {
    forall i :: 0 <= i < |sections| ==> HoldsSection(data, base + 40 * i, sections[i])
  }

  /** The headers of a 32-bit image (magic 0x010B) or a 64-bit one (magic 0x020B), whose optional
      header at `opt` is `size` bytes long; its data directories begin 96 or 112 bytes into it. The
      resource directory is the third, which an optional header may be too short to hold. */
  ghost predicate HoldsHeaders(data: seq<Byte>, layout: Layout, opt: nat, size: nat, magic: nat) {
    && |data| >= 0x40 && data[0] == 0x4D && data[1] == 0x5A
    && opt >= 24 && Has32(data, 0x3C, opt - 24)
    && opt <= |data|
    && data[opt - 24] == 0x50 && data[opt - 23] == 0x45 && data[opt - 22] == 0 && data[opt - 21] == 0
    && Has16(data, opt - 20, layout.machine) && Has16(data, opt - 18, |layout.sections|) && Has16(data, opt - 4, size)
    && Has16(data, opt, magic) && (magic == 0x010B || magic == 0x020B)
    && var directories := if magic == 0x010B then 96 else 112;
    && directories + 16 <= size
    && Has32(data, opt + directories + 8, layout.importRva)
    && (if directories + 24 <= size then Has32(data, opt + directories + 16, layout.resourceRva)
        else layout.resourceRva == 0)
    && opt + size + 40 * |layout.sections| <= |data|
    && HoldsSections(data, opt + size, layout.sections)
  }

  ghost predicate HoldsLayout(data: seq<Byte>, layout: Layout) {
    exists opt, size, magic :: HoldsHeaders(data, layout, opt, size, magic)
  }

  lemma SectionMeaning(data: seq<Byte>, base: nat, s: Section)
    ensures HoldsSection(data, base, s) <==> base + 40 <= |data| && ReadSection(data, base) == Ok(s)
  {
    Has32Meaning(data, base + 8, s.virtualSize);
    Has32Meaning(data, base + 12, s.virtualAddress);
    Has32Meaning(data, base + 16, s.rawDataSize);
    Has32Meaning(data, base + 20, s.rawDataPtr);
  }

  lemma SectionsShift(data: seq<Byte>, base: nat, sections: seq<Section>)
    requires sections != []
    ensures HoldsSections(data, base, sections) <==>
              HoldsSection(data, base, sections[0]) && HoldsSections(data, base + 40, sections[1..])
  {
    var rest := sections[1..];
    if HoldsSections(data, base, sections) {
      assert HoldsSection(data, base + 40 * 0, sections[0]);
      forall i | 0 <= i < |rest| ensures HoldsSection(data, base + 40 + 40 * i, rest[i]) {
        assert HoldsSection(data, base + 40 * (i + 1), sections[i + 1]);
      }
    }
    if HoldsSection(data, base, sections[0]) && HoldsSections(data, base + 40, rest) {
      forall i | 0 <= i < |sections| ensures HoldsSection(data, base + 40 * i, sections[i]) {
        if i > 0 { assert HoldsSection(data, base + 40 + 40 * (i - 1), rest[i - 1]); }
      }
    }
  }

  lemma {:induction false} SectionsMeaning(data: seq<Byte>, base: nat, sections: seq<Section>)
    requires base + 40 * |sections| <= |data|
    ensures HoldsSections(data, base, sections) <==> ReadSections(data, base, |sections|) == Ok(sections)
    decreases |sections|
  {
    if sections != [] {
      SectionMeaning(data, base, sections[0]);
      SectionsShift(data, base, sections);
      SectionsMeaning(data, base + 40, sections[1..]);
      assert sections == [sections[0]] + sections[1..];
    }
  }

  /** The numbers in the headers, as the reader reads them. */
  ghost predicate NumbersRead(data: seq<Byte>, layout: Layout, opt: nat, size: nat, magic: nat) {
    && |data| >= 0x40 && opt >= 24 && At32(data, 0x3C) == opt - 24
    && opt + size <= |data|
    && At16(data, opt - 20) == layout.machine && At16(data, opt - 18) == |layout.sections|
    && At16(data, opt - 4) == size && size >= 112
    && At16(data, opt) == magic && (magic == 0x010B || magic == 0x020B)
    && var directories := if magic == 0x010B then 96 else 112;
    && directories + 16 <= size
    && At32(data, opt + directories + 8) == layout.importRva
    && layout.resourceRva == if directories + 24 <= size then At32(data, opt + directories + 16) else 0
  }

  lemma NumbersHeld(data: seq<Byte>, layout: Layout, opt: nat, size: nat, magic: nat)
    requires HoldsHeaders(data, layout, opt, size, magic)
    ensures NumbersRead(data, layout, opt, size, magic)
  {
    var directories := if magic == 0x010B then 96 else 112;
    Has32Meaning(data, 0x3C, opt - 24);
    Has16Meaning(data, opt - 20, layout.machine);
    Has16Meaning(data, opt - 18, |layout.sections|);
    Has16Meaning(data, opt - 4, size);
    Has16Meaning(data, opt, magic);
    Has32Meaning(data, opt + directories + 8, layout.importRva);
    Has32Meaning(data, opt + directories + 16, layout.resourceRva);
  }

  lemma HeldIsParsed(data: seq<Byte>, layout: Layout, opt: nat, size: nat, magic: nat)
    requires HoldsHeaders(data, layout, opt, size, magic)
    ensures ParseLayout(data) == Ok(layout)
  {
    NumbersHeld(data, layout, opt, size, magic);
    assert data[0..2] == MZ && data[opt - 24..opt - 20] == SIGNATURE;
    SectionsMeaning(data, opt + size, layout.sections);
  }

  lemma NumbersHold(data: seq<Byte>, layout: Layout, opt: nat, size: nat, magic: nat)
    requires NumbersRead(data, layout, opt, size, magic) && data[0] == 0x4D && data[1] == 0x5A
    requires data[opt - 24] == 0x50 && data[opt - 23] == 0x45 && data[opt - 22] == 0 && data[opt - 21] == 0
    requires opt + size + 40 * |layout.sections| <= |data| && HoldsSections(data, opt + size, layout.sections)
    ensures HoldsHeaders(data, layout, opt, size, magic)
  {
    var directories := if magic == 0x010B then 96 else 112;
    Has32Meaning(data, 0x3C, opt - 24);
    Has16Meaning(data, opt - 20, layout.machine);
    Has16Meaning(data, opt - 18, |layout.sections|);
    Has16Meaning(data, opt - 4, size);
    Has16Meaning(data, opt, magic);
    Has32Meaning(data, opt + directories + 8, layout.importRva);
    Has32Meaning(data, opt + directories + 16, layout.resourceRva);
  }

  lemma ParsedIsHeld(data: seq<Byte>, layout: Layout)
    requires ParseLayout(data) == Ok(layout)
    ensures HoldsLayout(data, layout)
  {
    var opt := At32(data, 0x3C) + 24;
    var size, magic := At16(data, opt - 4), At16(data, opt);
    assert data[0..2][0] == data[0] && data[0..2][1] == data[1];
    SignatureBytes(data, opt - 24);
    SectionCount(data, opt + size, At16(data, opt - 18));
    SectionsMeaning(data, opt + size, layout.sections);
    NumbersHold(data, layout, opt, size, magic);
  }

  lemma SignatureBytes(data: seq<Byte>, at: nat)
    requires at + 4 <= |data| && data[at..at + 4] == SIGNATURE
    ensures data[at] == 0x50 && data[at + 1] == 0x45 && data[at + 2] == 0 && data[at + 3] == 0
  {
    forall k | 0 <= k < 4 ensures data[at + k] == SIGNATURE[k] { assert data[at..at + 4][k] == data[at + k]; }
    assert data[at + 0] == SIGNATURE[0];
  }

  lemma {:induction false} SectionCount(data: seq<Byte>, base: nat, count: nat)
    requires ReadSections(data, base, count).Ok?
    ensures |ReadSections(data, base, count).value| == count
    decreases count
  {
    if count > 0 { SectionCount(data, base + 40, count - 1); }
  }

  /** A layout is read exactly off the files that hold it, of either format. */
  lemma LayoutExactlyWhen(data: seq<Byte>, layout: Layout)
    ensures ParseLayout(data) == Ok(layout) <==> HoldsLayout(data, layout)
  {
    if ParseLayout(data) == Ok(layout) { ParsedIsHeld(data, layout); }
    if opt, size, magic :| HoldsHeaders(data, layout, opt, size, magic) {
      HeldIsParsed(data, layout, opt, size, magic);
    }
  }

  /** Why a file is no image: the first of these that applies. */
  lemma LayoutError(data: seq<Byte>)
    requires ParseLayout(data).Err?
    ensures var e := ParseLayout(data).error;
            if |data| < 64 then e == TooSmall
            else if data[0] != 0x4D || data[1] != 0x5A then e == NoMz
            else
              var opt := At32(data, 60) + 24;
              if opt > |data| then e == BadHeaderOffset
              else if data[opt - 24] != 0x50 || data[opt - 23] != 0x45
                      || data[opt - 22] != 0 || data[opt - 21] != 0 then e == NoSignature
              else
                var size := At16(data, opt - 4);
                if opt + size > |data| then e == TruncatedOptionalHeader
                else if size < 2 then e == OptionalHeaderTooSmall
                else if At16(data, opt) != 0x010B && At16(data, opt) != 0x020B then e == UnsupportedFormat
                else if size < (if At16(data, opt) == 0x010B then 112 else 128) then e == NoDataDirectories
                else e == TruncatedSectionTable
  {
    if |data| >= 64 {
      assert data[0..2] == MZ <==> data[0] == 0x4D && data[1] == 0x5A;
      var opt := At32(data, 60) + 24;
      if opt <= |data| {
        assert data[opt - 24..opt - 20] == SIGNATURE <==>
               data[opt - 24] == 0x50 && data[opt - 23] == 0x45 && data[opt - 22] == 0 && data[opt - 21] == 0;
        if ParseHeaders(data).Ok? {
          var (_, tableOff, count) := ParseHeaders(data).value;
          if tableOff + count * 40 <= |data| { TableIsReadable(data); }
        }
      }
    }
  }

  /** A table in bounds has no other error. */
  lemma TableIsReadable(data: seq<Byte>)
    requires ParseHeaders(data).Ok?
    requires var (_, tableOff, count) := ParseHeaders(data).value; tableOff + count * 40 <= |data|
    ensures ParseLayout(data).Ok?
  {
    var (_, tableOff, count) := ParseHeaders(data).value;
    SectionsInBounds(data, tableOff, count);
  }

  // ---------- addresses ----------

  /** The section holds the address: it is within the larger of its two sizes, and not the last
      address of the 32-bit space. */
  predicate Spans(s: Section, rva: nat) {
    && s.virtualAddress <= rva < 0xFFFF_FFFF
    && (rva - s.virtualAddress < s.virtualSize || rva - s.virtualAddress < s.rawDataSize)
  }

  ghost predicate SpansFirst(sections: seq<Section>, i: nat, rva: nat) {
    i < |sections| && Spans(sections[i], rva) && forall j :: 0 <= j < i ==> !Spans(sections[j], rva)
  }

  ghost predicate MapsBy(sections: seq<Section>, i: nat, rva: nat, off: nat) {
    && SpansFirst(sections, i, rva)
    && off == sections[i].rawDataPtr + (rva - sections[i].virtualAddress) && off <= 0xFFFF_FFFF
  }

  /** The bytes of address `rva` are at `off`: as far into the raw data of the first section that
      holds it, unless that is out of the 32-bit range. */
  ghost predicate MapsTo(sections: seq<Section>, rva: nat, off: nat) {
    exists i: nat :: MapsBy(sections, i, rva, off)
  }

  lemma {:induction false} MapExactlyWhen(sections: seq<Section>, rva: nat, off: nat)
    ensures RvaToOffset(rva, sections) == Some(off) <==> MapsTo(sections, rva, off)
  {
    if sections != [] {
      if Spans(sections[0], rva) {
        assert SpansFirst(sections, 0, rva);
        if RvaToOffset(rva, sections) == Some(off) { assert MapsBy(sections, 0, rva, off); }
      } else {
        MapExactlyWhen(sections[1..], rva, off);
        if i: nat :| MapsBy(sections[1..], i, rva, off) {
          MapsShifts(sections, i, rva, off);
        }
        if i: nat :| MapsBy(sections, i, rva, off) {
          MapsShifts(sections, i - 1, rva, off);
        }
      }
    }
  }

  lemma MapsShifts(sections: seq<Section>, i: nat, rva: nat, off: nat)
    requires sections != [] && !Spans(sections[0], rva)
    ensures MapsBy(sections, i + 1, rva, off) <==> MapsBy(sections[1..], i, rva, off)
  {
    var rest := sections[1..];
    if SpansFirst(rest, i, rva) {
      forall j | 0 <= j < i + 1 ensures !Spans(sections[j], rva) {
        if j > 0 { assert !Spans(rest[j - 1], rva); }
      }
    }
    if SpansFirst(sections, i + 1, rva) {
      forall j | 0 <= j < i ensures !Spans(rest[j], rva) { assert !Spans(sections[j + 1], rva); }
    }
  }

  // ---------- text ----------

  /** The text of a byte string has one character per byte. */
  lemma {:induction false} AsTextMeaning(bytes: seq<Byte>)
    ensures |AsText(bytes)| == |bytes|
    ensures forall i :: 0 <= i < |bytes| ==> AsText(bytes)[i] == bytes[i] as char
  {
    if bytes != [] { AsTextMeaning(bytes[1..]); }
  }

  /** A Unicode scalar value: a code point that is not a surrogate. */
  predicate IsScalar(c: nat) {
    c < 0x11_0000 && !(0xD800 <= c < 0xE000)
  }

  /** UTF-8, as an encoder (section 3 of RFC 3629). */
  function Encoded(c: nat): (bytes: seq<Byte>)
    requires IsScalar(c)
    ensures bytes != []
  {
    if c < 0x80 then [c]
    else if c < 0x800 then [0xC0 + c / 0x40, 0x80 + c % 0x40]
    else if c < 0x1_0000 then [0xE0 + c / 0x1000, 0x80 + c / 0x40 % 0x40, 0x80 + c % 0x40]
    else [0xF0 + c / 0x4_0000, 0x80 + c / 0x1000 % 0x40, 0x80 + c / 0x40 % 0x40, 0x80 + c % 0x40]
  }

  ghost predicate AreScalars(text: seq<nat>) {
    forall c :: c in text ==> IsScalar(c)
  }

  ghost function EncodedText(text: seq<nat>): seq<Byte>
    requires AreScalars(text)
  {
    if text == [] then [] else Encoded(text[0]) + EncodedText(text[1..])
  }

  /** The bytes are some text in UTF-8. */
  ghost predicate IsUtf8(bytes: seq<Byte>) {
    exists text: seq<nat> :: AreScalars(text) && EncodedText(text) == bytes
  }

  lemma LeadOfEncoded(c: nat, rest: seq<Byte>)
    requires IsScalar(c)
    ensures Utf8Lead(Encoded(c) + rest) == |Encoded(c)|
  {
  }

  lemma TwoBytes(b0: int, b1: int)
    requires 0xC2 <= b0 < 0xE0 && 0x80 <= b1 < 0xC0
    ensures var c := 0x40 * (b0 - 0xC0) + (b1 - 0x80);
            0x80 <= c < 0x800 && c / 0x40 == b0 - 0xC0 && c % 0x40 == b1 - 0x80
  {
  }

  lemma ThreeBytes(b0: int, b1: int, b2: int)
    requires 0xE0 <= b0 < 0xF0 && 0x80 <= b1 < 0xC0 && 0x80 <= b2 < 0xC0
    requires (b0 == 0xE0 ==> b1 >= 0xA0) && (b0 == 0xED ==> b1 < 0xA0)
    ensures var c := 0x1000 * (b0 - 0xE0) + 0x40 * (b1 - 0x80) + (b2 - 0x80);
            && 0x800 <= c < 0x1_0000 && IsScalar(c)
            && c / 0x1000 == b0 - 0xE0 && c / 0x40 % 0x40 == b1 - 0x80 && c % 0x40 == b2 - 0x80
  {
    var c := 0x1000 * (b0 - 0xE0) + 0x40 * (b1 - 0x80) + (b2 - 0x80);
    assert c / 0x40 == 0x40 * (b0 - 0xE0) + (b1 - 0x80);
  }

  lemma FourBytes(b0: int, b1: int, b2: int, b3: int)
    requires 0xF0 <= b0 < 0xF5 && 0x80 <= b1 < 0xC0 && 0x80 <= b2 < 0xC0 && 0x80 <= b3 < 0xC0
    requires (b0 == 0xF0 ==> b1 >= 0x90) && (b0 == 0xF4 ==> b1 < 0x90)
    ensures var c := 0x4_0000 * (b0 - 0xF0) + 0x1000 * (b1 - 0x80) + 0x40 * (b2 - 0x80) + (b3 - 0x80);
            && 0x1_0000 <= c < 0x11_0000
            && c / 0x4_0000 == b0 - 0xF0 && c / 0x1000 % 0x40 == b1 - 0x80
            && c / 0x40 % 0x40 == b2 - 0x80 && c % 0x40 == b3 - 0x80
  {
    var c := 0x4_0000 * (b0 - 0xF0) + 0x1000 * (b1 - 0x80) + 0x40 * (b2 - 0x80) + (b3 - 0x80);
    assert c / 0x40 == 0x1000 * (b0 - 0xF0) + 0x40 * (b1 - 0x80) + (b2 - 0x80);
    assert c / 0x1000 == 0x40 * (b0 - 0xF0) + (b1 - 0x80);
  }

  /** The scalar value that a well-formed sequence at the front encodes. */
  lemma LeadEncodes(s: seq<Byte>) returns (c: nat)
    requires s != [] && Utf8Lead(s) > 0
    ensures IsScalar(c) && s[..Utf8Lead(s)] == Encoded(c)
  {
    var n, b0: int := Utf8Lead(s), s[0];
    if n == 1 {
      c := b0;
    } else if n == 2 {
      var b1: int := s[1];
      TwoBytes(b0, b1);
      c := 0x40 * (b0 - 0xC0) + (b1 - 0x80);
    } else if n == 3 {
      var b1: int, b2: int := s[1], s[2];
      ThreeBytes(b0, b1, b2);
      c := 0x1000 * (b0 - 0xE0) + 0x40 * (b1 - 0x80) + (b2 - 0x80);
    } else {
      var b1: int, b2: int, b3: int := s[1], s[2], s[3];
      FourBytes(b0, b1, b2, b3);
      c := 0x4_0000 * (b0 - 0xF0) + 0x1000 * (b1 - 0x80) + 0x40 * (b2 - 0x80) + (b3 - 0x80);
    }
  }

  lemma {:induction false} EncodedIsValid(text: seq<nat>)
    requires AreScalars(text)
    ensures ValidUtf8(EncodedText(text))
  {
    if text != [] {
      var head, rest := Encoded(text[0]), EncodedText(text[1..]);
      EncodedIsValid(text[1..]);
      LeadOfEncoded(text[0], rest);
      assert (head + rest)[|head|..] == rest;
    }
  }

  lemma EncodedCons(c: nat, text: seq<nat>)
    requires IsScalar(c) && AreScalars(text)
    ensures AreScalars([c] + text) && EncodedText([c] + text) == Encoded(c) + EncodedText(text)
  {
    assert ([c] + text)[1..] == text;
  }

  lemma {:induction false} ValidIsEncoded(s: seq<Byte>) returns (text: seq<nat>)
    requires ValidUtf8(s)
    ensures AreScalars(text) && EncodedText(text) == s
    decreases |s|
  {
    text := [];
    if s != [] {
      var n := Utf8Lead(s);
      var c := LeadEncodes(s);
      var rest := ValidIsEncoded(s[n..]);
      text := [c] + rest;
      EncodedCons(c, rest);
      assert s[..n] + s[n..] == s;
    }
  }

  /** A byte string is accepted as UTF-8 exactly when it is the encoding of some text. */
  lemma Utf8ExactlyWhen(s: seq<Byte>)
    ensures ValidUtf8(s) <==> IsUtf8(s)
  {
    if ValidUtf8(s) { var text := ValidIsEncoded(s); }
    if text: seq<nat> :| AreScalars(text) && EncodedText(text) == s { EncodedIsValid(text); }
  }

  /** `name` stands at `off`, with a terminator behind it. */
  ghost predicate IsName(data: seq<Byte>, off: nat, name: seq<Byte>) {
    && off + |name| < |data| && data[off..off + |name|] == name
    && 0 !in name && data[off + |name|] == 0 && IsUtf8(name)
  }

  lemma NameExactlyWhen(data: seq<Byte>, off: nat, name: seq<Byte>)
    ensures CString(data, off) == Ok(name) <==> IsName(data, off, name)
  {
    Utf8ExactlyWhen(name);
    if off < |data| {
      var end := NulAt(data, off);
      if IsName(data, off, name) {
        forall k | off <= k < off + |name| ensures data[k] != 0 {
          assert data[k] == data[off..off + |name|][k - off] == name[k - off];
        }
        assert end == off + |name|;
      }
      if CString(data, off) == Ok(name) {
        assert forall k :: 0 <= k < |name| ==> name[k] == data[off + k];
      }
    }
  }

  /** Why there is no name: it starts behind the end, nothing terminates it, or it is not UTF-8. */
  lemma NameError(data: seq<Byte>, off: nat)
    requires CString(data, off).Err?
    ensures CString(data, off).error == if |data| <= off then BadStringOffset
                                        else if 0 !in data[off..] then UnterminatedString
                                        else NotUtf8
  {
    if off < |data| {
      var end := NulAt(data, off);
      if end < |data| {
        assert data[off..][end - off] == 0;
      }
    }
  }

  // ---------- the import table ----------

  predicate IsBlank(data: seq<Byte>, off: nat) {
    off + 20 <= |data| && forall i :: off <= i < off + 20 ==> data[i] == 0
  }

  lemma BlankIsNull(data: seq<Byte>, off: nat)
    requires off + 20 <= |data|
    ensures IsBlank(data, off) <==> IsNullDescriptor(data, off)
  {
    Has32Meaning(data, off, 0);
    Has32Meaning(data, off + 4, 0);
    Has32Meaning(data, off + 8, 0);
    Has32Meaning(data, off + 12, 0);
    Has32Meaning(data, off + 16, 0);
  }

  /** The descriptor at `off` refers to `name`, by its fourth field. */
  ghost predicate RefersTo(data: seq<Byte>, sections: seq<Section>, off: nat, name: seq<Byte>) {
    exists rva, at :: Has32(data, off + 12, rva) && MapsTo(sections, rva, at) && IsName(data, at, name)
  }

  lemma ReferenceMeaning(data: seq<Byte>, sections: seq<Section>, off: nat, name: seq<Byte>)
    requires off + 20 <= |data|
    ensures DescriptorName(data, sections, off) == Ok(name) <==> RefersTo(data, sections, off, name)
  {
    var rva := At32(data, off + 12);
    Has32Meaning(data, off + 12, rva);
    if at :| MapsTo(sections, rva, at) && IsName(data, at, name) {
      MapExactlyWhen(sections, rva, at);
      NameExactlyWhen(data, at, name);
    }
    if RefersTo(data, sections, off, name) {
      var r, at :| Has32(data, off + 12, r) && MapsTo(sections, r, at) && IsName(data, at, name);
      Has32Meaning(data, off + 12, r);
    }
    if DescriptorName(data, sections, off) == Ok(name) {
      var at := RvaToOffset(rva, sections).value;
      MapExactlyWhen(sections, rva, at);
      NameExactlyWhen(data, at, name);
    }
  }

  /** From `off` on, descriptors that refer to `names`, and then a blank one. */
  ghost predicate ListsNames(data: seq<Byte>, sections: seq<Section>, off: nat, names: seq<seq<Byte>>)
    decreases names
  {
    && off + 20 <= |data|
    && if names == [] then IsBlank(data, off)
       else
         && !IsBlank(data, off) && RefersTo(data, sections, off, names[0])
         && ListsNames(data, sections, off + 20, names[1..])
  }

  lemma {:induction false} ListIsTable(data: seq<Byte>, sections: seq<Section>, off: nat, names: seq<seq<Byte>>)
    ensures ListsNames(data, sections, off, names) <==> DescriptorTable(data, sections, off, names)
    decreases names
  {
    if off + 20 <= |data| {
      BlankIsNull(data, off);
      if names != [] {
        ReferenceMeaning(data, sections, off, names[0]);
        ListIsTable(data, sections, off + 20, names[1..]);
      }
    }
  }

  /** The import directory of the file lists names that are these, in lowercase. */
  ghost predicate HoldsImports(data: seq<Byte>, layout: Layout, list: seq<string>) {
    if layout.importRva == 0 then list == []
    else exists off, names :: MapsTo(layout.sections, layout.importRva, off)
                              && ListsNames(data, layout.sections, off, names) && OrderedSetOf(list, Lowered(names))
  }

  lemma ImportsHeld(data: seq<Byte>, list: seq<string>)
    requires DirectImports(data) == Ok(list)
    ensures exists layout :: HoldsLayout(data, layout) && HoldsImports(data, layout, list)
  {
    var pe := ParseLayout(data).value;
    LayoutExactlyWhen(data, pe);
    var off, names := ImportsComeFromTable(data);
    if pe.importRva != 0 {
      MapExactlyWhen(pe.sections, pe.importRva, off);
      ListIsTable(data, pe.sections, off, names);
    }
    assert HoldsImports(data, pe, list);
  }

  lemma HeldImportsRead(data: seq<Byte>, layout: Layout, list: seq<string>)
    requires HoldsLayout(data, layout) && HoldsImports(data, layout, list)
    ensures DirectImports(data) == Ok(list)
  {
    LayoutExactlyWhen(data, layout);
    if layout.importRva != 0 {
      var off, names :| MapsTo(layout.sections, layout.importRva, off)
                        && ListsNames(data, layout.sections, off, names) && OrderedSetOf(list, Lowered(names));
      MapExactlyWhen(layout.sections, layout.importRva, off);
      ListIsTable(data, layout.sections, off, names);
      TableGivesImports(data, off, names);
      OrderedListUnique(DirectImports(data).value, list);
    }
  }

  /** An import list is read exactly off the files that hold it: 32-bit or 64-bit images whose import
      directory is absent, or leads to descriptors of these names. */
  lemma ImportsExactlyWhen(data: seq<Byte>, list: seq<string>)
    ensures DirectImports(data) == Ok(list) <==>
            exists layout :: HoldsLayout(data, layout) && HoldsImports(data, layout, list)
  {
    if DirectImports(data) == Ok(list) { ImportsHeld(data, list); }
    if layout :| HoldsLayout(data, layout) && HoldsImports(data, layout, list) {
      HeldImportsRead(data, layout, list);
    }
  }

  /** The descriptor at `off` cannot be read: it is cut off, its name has no place in the file, or there
      is no name there. */
  ghost predicate IsBadDescriptor(data: seq<Byte>, sections: seq<Section>, off: nat, e: PeError) {
    if off + 20 > |data| then e == TruncatedDescriptors
    else
      var rva := At32(data, off + 12);
      && !IsBlank(data, off)
      && (((forall at :: !MapsTo(sections, rva, at)) && e == BadNameRva)
          || exists at :: MapsTo(sections, rva, at) && CString(data, at) == Err(e))
  }

  /** It is the `n`-th one, behind others that can be read. */
  ghost predicate IsFirstBad(data: seq<Byte>, sections: seq<Section>, off: nat, n: nat, e: PeError)
    decreases n
  {
    if n == 0 then IsBadDescriptor(data, sections, off, e)
    else
      && off + 20 <= |data| && !IsBlank(data, off) && DescriptorName(data, sections, off).Ok?
      && IsFirstBad(data, sections, off + 20, n - 1, e)
  }

  lemma {:induction false} CollectError(data: seq<Byte>, sections: seq<Section>, off: nat, acc: seq<string>)
    returns (n: nat)
    requires Collect(data, sections, off, acc).Err?
    ensures IsFirstBad(data, sections, off, n, Collect(data, sections, off, acc).error)
    decreases |data| - off
  {
    n := 0;
    if off + 20 <= |data| {
      BlankIsNull(data, off);
      var name := DescriptorName(data, sections, off);
      if name.Ok? {
        var rest := CollectError(data, sections, off + 20, Insert(acc, Lower(AsText(name.value))));
        n := rest + 1;
      } else {
        var rva := At32(data, off + 12);
        forall at { MapExactlyWhen(sections, rva, at); }
        if RvaToOffset(rva, sections).Some? { assert MapsTo(sections, rva, RvaToOffset(rva, sections).value); }
      }
    }
  }

  /** Why there is no import list: the file is no image, its import directory has no place in the file, or
      a descriptor cannot be read. */
  lemma ImportError(data: seq<Byte>)
    requires DirectImports(data).Err?
    ensures var e, layout := DirectImports(data).error, ParseLayout(data);
            match layout
            case Err(error) => e == error
            case Ok(pe) =>
              if forall off :: !MapsTo(pe.sections, pe.importRva, off) then e == BadImportTableRva
              else exists off, n :: MapsTo(pe.sections, pe.importRva, off)
                                    && IsFirstBad(data, pe.sections, off, n, e)
  {
    if ParseLayout(data).Ok? {
      var pe := ParseLayout(data).value;
      forall off { MapExactlyWhen(pe.sections, pe.importRva, off); }
      if RvaToOffset(pe.importRva, pe.sections).Some? {
        var off := RvaToOffset(pe.importRva, pe.sections).value;
        var n := CollectError(data, pe.sections, off, []);
      }
    }
  }

  // ---------- the manifest resource ----------

  /** Entry `k` of the resource directory at `dir` is the first with this ID (or the first of all), and
      leads to `target`, counted from `base`; the top bit of the offset only says what is there. */
  ghost predicate LeadsOnBy(data: seq<Byte>, base: nat, dir: nat, id: Option<nat>, k: nat, target: nat) {
    && dir + 16 <= |data| && k < At16(data, dir + 12) + At16(data, dir + 14)
    && FirstMatch(data, dir + 16, k, id)
    && target == base + At32(data, dir + 16 + 8 * k + 4) % 0x8000_0000
  }

  ghost predicate LeadsOn(data: seq<Byte>, base: nat, dir: nat, id: Option<nat>, target: nat) {
    exists k: nat :: LeadsOnBy(data, base, dir, id, k, target)
  }

  lemma LeadsOnExactlyWhen(data: seq<Byte>, base: nat, dir: nat, id: Option<nat>, target: nat)
    ensures FindResourceEntry(data, base, dir, id) == Some(target) <==> LeadsOn(data, base, dir, id, target)
  {
    if dir + 16 <= |data| {
      var count := At16(data, dir + 12) + At16(data, dir + 14);
      FindEntryMeaning(data, base, dir + 16, count, id);
      var r := FindEntry(data, base, dir + 16, count, id);
      if r.Some? {
        var k: nat :| k < count && FirstMatch(data, dir + 16, k, id)
                      && r.value == EntryTarget(base, At32(data, dir + 16 + 8 * k + 4));
        assert LeadsOnBy(data, base, dir, id, k, r.value);
        forall j: nat, t: nat | LeadsOnBy(data, base, dir, id, j, t) ensures j == k { }
      } else {
        forall j: nat, t: nat ensures !LeadsOnBy(data, base, dir, id, j, t) { }
      }
    }
  }

  /** The file's resource directory leads, through the resource type 24, its first name and that
      name's first language, to an entry that is the address and size of `payload`. */
  ghost predicate HoldsManifestAt(
    data: seq<Byte>, layout: Layout, base: nat, names: nat, languages: nat, entry: nat, at: nat, payload: seq<Byte>)
  {
    && layout.resourceRva != 0 && MapsTo(layout.sections, layout.resourceRva, base)
    && LeadsOn(data, base, base, Some(24), names)
    && LeadsOn(data, base, names, None, languages)
    && LeadsOn(data, base, languages, None, entry)
    && entry + 8 <= |data| && MapsTo(layout.sections, At32(data, entry), at)
    && Has32(data, entry + 4, |payload|)
    && at + |payload| <= |data| && data[at..at + |payload|] == payload
  }

  ghost predicate HoldsManifest(data: seq<Byte>, layout: Layout, payload: seq<Byte>) {
    exists base, names, languages, entry, at ::
      HoldsManifestAt(data, layout, base, names, languages, entry, at, payload)
  }

  lemma ManifestHeld(data: seq<Byte>, payload: seq<Byte>)
    requires ManifestPayload(data) == Some(payload)
    ensures exists layout :: HoldsLayout(data, layout) && HoldsManifest(data, layout, payload)
  {
    var pe := ParseLayout(data).value;
    LayoutExactlyWhen(data, pe);
    var base := RvaToOffset(pe.resourceRva, pe.sections).value;
    var names := FindResourceEntry(data, base, base, Some(RT_MANIFEST)).value;
    var languages := FindResourceEntry(data, base, names, None).value;
    var entry := FindResourceEntry(data, base, languages, None).value;
    var at := RvaToOffset(At32(data, entry), pe.sections).value;
    MapExactlyWhen(pe.sections, pe.resourceRva, base);
    LeadsOnExactlyWhen(data, base, base, Some(24), names);
    LeadsOnExactlyWhen(data, base, names, None, languages);
    LeadsOnExactlyWhen(data, base, languages, None, entry);
    MapExactlyWhen(pe.sections, At32(data, entry), at);
    Has32Meaning(data, entry + 4, |payload|);
    assert HoldsManifestAt(data, pe, base, names, languages, entry, at, payload);
  }

  lemma EntryLedTo(data: seq<Byte>, base: nat, names: nat, languages: nat, entry: nat)
    requires LeadsOn(data, base, base, Some(24), names)
    requires LeadsOn(data, base, names, None, languages)
    requires LeadsOn(data, base, languages, None, entry)
    ensures ManifestEntry(data, base) == Some(entry)
  {
    LeadsOnExactlyWhen(data, base, base, Some(24), names);
    LeadsOnExactlyWhen(data, base, names, None, languages);
    LeadsOnExactlyWhen(data, base, languages, None, entry);
  }

  lemma PayloadHeld(data: seq<Byte>, sections: seq<Section>, entry: nat, at: nat, payload: seq<Byte>)
    requires entry + 8 <= |data| && MapsTo(sections, At32(data, entry), at)
    requires Has32(data, entry + 4, |payload|)
    requires at + |payload| <= |data| && data[at..at + |payload|] == payload
    ensures EntryPayload(data, sections, entry) == Some(payload)
  {
    MapExactlyWhen(sections, At32(data, entry), at);
    Has32Meaning(data, entry + 4, |payload|);
  }

  lemma HeldManifestRead(
    data: seq<Byte>, layout: Layout, base: nat, names: nat, languages: nat, entry: nat, at: nat, payload: seq<Byte>)
    requires HoldsLayout(data, layout) && HoldsManifestAt(data, layout, base, names, languages, entry, at, payload)
    ensures ManifestPayload(data) == Some(payload)
  {
    LayoutExactlyWhen(data, layout);
    MapExactlyWhen(layout.sections, layout.resourceRva, base);
    EntryLedTo(data, base, names, languages, entry);
    PayloadHeld(data, layout.sections, entry, at, payload);
  }

  /** An embedded manifest is read exactly off the files that hold it, of either format. */
  lemma ManifestExactlyWhen(data: seq<Byte>, payload: seq<Byte>)
    ensures ManifestPayload(data) == Some(payload) <==>
            exists layout :: HoldsLayout(data, layout) && HoldsManifest(data, layout, payload)
  {
    if ManifestPayload(data) == Some(payload) { ManifestHeld(data, payload); }
    if layout :| HoldsLayout(data, layout) && HoldsManifest(data, layout, payload) {
      var base, names, languages, entry, at :|
        HoldsManifestAt(data, layout, base, names, languages, entry, at, payload);
      HeldManifestRead(data, layout, base, names, languages, entry, at, payload);
    }
  }

  // ---------- its text ----------

  type CodeUnit = x: int | 0 <= x < 0x1_0000

  /** UTF-16 code units as bytes, low byte first. */
  function UnitBytes(units: seq<CodeUnit>): seq<Byte> {
    if units == [] then [] else [units[0] as int % 0x100, units[0] as int / 0x100] + UnitBytes(units[1..])
  }

  lemma UnitReads(u: CodeUnit, rest: seq<Byte>)
    ensures Units([u as int % 0x100, u as int / 0x100] + rest) == [u as int] + Units(rest)
  {
    var front: seq<Byte> := [u as int % 0x100, u as int / 0x100];
    var bytes := front + rest;
    assert bytes[2..] == rest;
    assert bytes[0] as int + 0x100 * (bytes[1] as int) == u as int;
  }

  lemma {:induction false} UnitsComeBack(units: seq<CodeUnit>, tail: seq<Byte>)
    requires |tail| <= 1
    ensures Units(UnitBytes(units) + tail) == units
  {
    if units == [] {
      assert [] + tail == tail;
    } else {
      var front: seq<Byte>, rest := [units[0] as int % 0x100, units[0] as int / 0x100], UnitBytes(units[1..]);
      UnitsComeBack(units[1..], tail);
      UnitReads(units[0], rest + tail);
      assert front + rest + tail == front + (rest + tail);
      assert units == [units[0]] + units[1..];
    }
  }

  /** A manifest in UTF-16 begins with a byte-order mark, and a last odd byte is dropped; any other is
      UTF-8, and loses the mark it may begin with. */
  lemma DecodingMeaning(units: seq<CodeUnit>, tail: seq<Byte>, bytes: seq<Byte>)
    requires |tail| <= 1
    ensures DecodeManifestText([0xFF, 0xFE] + (UnitBytes(units) + tail)) == Utf16(units)
    ensures DecodeManifestText([0xEF, 0xBB, 0xBF] + bytes) == Utf8(bytes)
    ensures !([0xFF, 0xFE] <= bytes) && !([0xEF, 0xBB, 0xBF] <= bytes) ==> DecodeManifestText(bytes) == Utf8(bytes)
  {
    UnitsComeBack(units, tail);
    assert ([0xFF, 0xFE] + (UnitBytes(units) + tail))[2..] == UnitBytes(units) + tail;
    var marked: seq<Byte> := [0xEF, 0xBB, 0xBF] + bytes;
    assert marked[0..3] == [0xEF, 0xBB, 0xBF] && marked[3..] == bytes;
  }
}
