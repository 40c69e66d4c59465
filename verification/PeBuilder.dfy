/**
 The synthetic image writers of src/pe.rs (`testpe`), and the round trips: what the reader
 gets back from an image they wrote.
 */
module PeBuilder {
  import opened Wrappers
  import opened Pe
  import opened PeFacts
  import opened PeImage

  const PE_OFFSET: nat := 0x80
  const OPTIONAL_HEADER_SIZE: nat := 0xF0
  const OPTIONAL_HEADER_OFFSET: nat := 0x98
  const SECTION_TABLE_OFFSET: nat := 0x188
  const DATA_DIR_START: nat := 0x108
  const SECTION_VIRTUAL_ADDRESS: nat := 0x1000
  const SECTION_RAW_DATA_PTR: nat := 0x200
  const RSRC_VIRTUAL_ADDRESS: nat := 0x2000

  // ---------- what an image holds ----------

  /** The headers of a 64-bit image with one or two sections, in its first 0x200 bytes. */
  predicate HasHeaders(h: seq<Byte>, importRva: nat, importSize: nat, resourceRva: nat, resourceSize: nat,
                       sections: seq<Section>)
  {
    && |h| >= SECTION_RAW_DATA_PTR
    && |sections| <= 2
    && HasFileHeader(h, |sections|)
    && HasOptionalHeader(h, importRva, importSize, resourceRva, resourceSize)
    && forall i :: 0 <= i < |sections| ==> HasSection(h, SECTION_TABLE_OFFSET + 40 * i, sections[i])
  }

  predicate HasFileHeader(h: seq<Byte>, count: nat)
    requires |h| >= SECTION_RAW_DATA_PTR
  {
    && h[0..2] == MZ
    && At32(h, 0x3C) == PE_OFFSET
    && h[PE_OFFSET..PE_OFFSET + 4] == SIGNATURE
    && At16(h, PE_OFFSET + 4) == 0x8664
    && At16(h, PE_OFFSET + 6) == count
    && At16(h, PE_OFFSET + 20) == OPTIONAL_HEADER_SIZE
  }

  predicate HasOptionalHeader(h: seq<Byte>, importRva: nat, importSize: nat, resourceRva: nat, resourceSize: nat)
    requires |h| >= SECTION_RAW_DATA_PTR
  {
    && At16(h, OPTIONAL_HEADER_OFFSET) == 0x020B
    && At32(h, DATA_DIR_START + 8) == importRva
    && At32(h, DATA_DIR_START + 12) == importSize
    && At32(h, DATA_DIR_START + 16) == resourceRva
    && At32(h, DATA_DIR_START + 20) == resourceSize
  }

  predicate HasSection(h: seq<Byte>, base: nat, s: Section) {
    && base + 40 <= |h|
    && At32(h, base + 8) == s.virtualSize
    && At32(h, base + 12) == s.virtualAddress
    && At32(h, base + 16) == s.rawDataSize
    && At32(h, base + 20) == s.rawDataPtr
  }

  lemma {:induction false} SectionsParse(data: seq<Byte>, base: nat, sections: seq<Section>)
    requires forall i :: 0 <= i < |sections| ==> HasSection(data, base + 40 * i, sections[i])
    ensures ReadSections(data, base, |sections|) == Ok(sections)
    decreases |sections|
  {
    if sections != [] {
      var init, last := sections[..|sections| - 1], sections[|sections| - 1];
      SectionsParse(data, base, init);
      ReadSectionsAppend(data, base, |init|);
      assert HasSection(data, base + 40 * |init|, last);
      assert init + [last] == sections;
    }
  }

  lemma HeadersParse(data: seq<Byte>, importRva: nat, importSize: nat, resourceRva: nat, resourceSize: nat,
                     sections: seq<Section>)
    requires HasHeaders(data, importRva, importSize, resourceRva, resourceSize, sections)
    ensures ParseLayout(data) == Ok(Layout(importRva, resourceRva, 0x8664, sections))
  {
    SectionsParse(data, SECTION_TABLE_OFFSET, sections);
  }

  /** The headers depend on the first 0x200 bytes only. */
  lemma HeadersLocal(a: seq<Byte>, b: seq<Byte>, importRva: nat, importSize: nat, resourceRva: nat, resourceSize: nat,
                     sections: seq<Section>)
    requires |a| >= SECTION_RAW_DATA_PTR && |b| >= SECTION_RAW_DATA_PTR
    requires forall i :: 0 <= i < SECTION_RAW_DATA_PTR ==> a[i] == b[i]
    requires HasHeaders(a, importRva, importSize, resourceRva, resourceSize, sections)
    ensures HasHeaders(b, importRva, importSize, resourceRva, resourceSize, sections)
  {
    assert a[0..2] == b[0..2] && a[PE_OFFSET..PE_OFFSET + 4] == b[PE_OFFSET..PE_OFFSET + 4];
    assert HasOptionalHeader(b, importRva, importSize, resourceRva, resourceSize);
    forall i | 0 <= i < |sections| ensures HasSection(b, SECTION_TABLE_OFFSET + 40 * i, sections[i]) {
      assert HasSection(a, SECTION_TABLE_OFFSET + 40 * i, sections[i]);
    }
  }

  /** Where the `j`-th name starts within the string area. */
  function NameOffset(names: seq<seq<Byte>>, j: nat): nat
    requires j <= |names|
  {
    if j == 0 then 0 else NameOffset(names, j - 1) + |names[j - 1]| + 1
  }

  lemma {:induction false} NameOffsetsGrow(names: seq<seq<Byte>>, i: nat, j: nat)
    requires i < j <= |names|
    ensures NameOffset(names, i) + |names[i]| + 1 <= NameOffset(names, j)
  {
    if i < j - 1 { NameOffsetsGrow(names, i, j - 1); }
  }

  function DescriptorBytes(names: seq<seq<Byte>>): nat {
    (|names| + 1) * 20
  }

  function SectionSize(names: seq<seq<Byte>>): nat {
    Max(DescriptorBytes(names), 1) + Max(NameOffset(names, |names|), 1)
  }

  /** The image size fits the 32-bit fields that describe it. */
  predicate Fits(names: seq<seq<Byte>>) {
    SECTION_VIRTUAL_ADDRESS + SectionSize(names) <= U32_MAX
  }

  function ImportSection(names: seq<seq<Byte>>): Section {
    Section(SECTION_VIRTUAL_ADDRESS, SectionSize(names), SECTION_RAW_DATA_PTR, SectionSize(names))
  }

  predicate ZeroFrom(data: seq<Byte>, from: nat, to: nat)
    requires to <= |data|
  {
    forall i :: from <= i < to ==> data[i] == 0
  }

  /** The `j`-th descriptor, whose only non-zero field is the RVA of the `j`-th name. */
  predicate HasDescriptor(data: seq<Byte>, names: seq<seq<Byte>>, j: nat)
    requires j < |names| && SECTION_RAW_DATA_PTR + 20 * j + 20 <= |data|
  {
    var off := SECTION_RAW_DATA_PTR + 20 * j;
    && ZeroFrom(data, off, off + 12)
    && At32(data, off + 12) == SECTION_VIRTUAL_ADDRESS + DescriptorBytes(names) + NameOffset(names, j)
    && ZeroFrom(data, off + 16, off + 20)
  }

  function NameStart(names: seq<seq<Byte>>, j: nat): nat
    requires j <= |names|
  {
    SECTION_RAW_DATA_PTR + DescriptorBytes(names) + NameOffset(names, j)
  }

  /** The `j`-th name, with its terminator. */
  predicate HasName(data: seq<Byte>, names: seq<seq<Byte>>, j: nat)
    requires j < |names| && NameStart(names, j) + |names[j]| < |data|
  {
    var start := NameStart(names, j);
    data[start..start + |names[j]|] == names[j] && data[start + |names[j]|] == 0
  }

  lemma NamesInBounds(names: seq<seq<Byte>>, j: nat)
    requires j < |names|
    ensures NameStart(names, j) + |names[j]| + 1 <= SECTION_RAW_DATA_PTR + SectionSize(names)
    ensures SECTION_RAW_DATA_PTR + 20 * j + 20 <= SECTION_RAW_DATA_PTR + DescriptorBytes(names) - 20
  {
    NameOffsetsGrow(names, j, |names|);
  }

  /** An empty import list has no directory. */
  function ImportRva(names: seq<seq<Byte>>): nat {
    if names == [] then 0 else SECTION_VIRTUAL_ADDRESS
  }

  /** The complete image of an import list. */
  ghost predicate IsImportImage(data: seq<Byte>, names: seq<seq<Byte>>) {
    && |data| == SECTION_RAW_DATA_PTR + SectionSize(names)
    && HasHeaders(data, ImportRva(names), DescriptorBytes(names), 0, 0, [ImportSection(names)])
    && ZeroFrom(data, SECTION_RAW_DATA_PTR + 20 * |names|, SECTION_RAW_DATA_PTR + DescriptorBytes(names))
    && HasBody(data, names, |names|)
  }

  /** The first `n` descriptors and names. */
  ghost predicate HasBody(data: seq<Byte>, names: seq<seq<Byte>>, n: nat)
    requires |data| == SECTION_RAW_DATA_PTR + SectionSize(names) && n <= |names|
  {
    forall j :: 0 <= j < n ==> HasEntry(data, names, j)
  }

  ghost predicate HasEntry(data: seq<Byte>, names: seq<seq<Byte>>, j: nat)
    requires |data| == SECTION_RAW_DATA_PTR + SectionSize(names) && j < |names|
  {
    NamesInBounds(names, j);
    HasDescriptor(data, names, j) && HasName(data, names, j)
  }

  // ---------- the writers ----------

  method WriteU16(bytes: array<Byte>, offset: nat, value: nat)
    requires offset + 2 <= bytes.Length && value < 0x1_0000
    modifies bytes
    ensures At16(bytes[..], offset) == value
    ensures forall i :: 0 <= i < bytes.Length && !(offset <= i < offset + 2) ==> bytes[i] == old(bytes[i])
  {
    bytes[offset] := value % 0x100;
    bytes[offset + 1] := value / 0x100;
  }

  lemma Digits(value: nat)
    requires value <= U32_MAX
    ensures value == value % 0x100 + 0x100 * (value / 0x100 % 0x100)
                     + 0x1_0000 * (value / 0x1_0000 % 0x100) + 0x100_0000 * (value / 0x100_0000)
    ensures value / 0x100_0000 < 0x100
  {
    var v1 := value / 0x100;
    var v2 := v1 / 0x100;
    assert value / 0x1_0000 == v2 && value / 0x100_0000 == v2 / 0x100;
  }

  method WriteU32(bytes: array<Byte>, offset: nat, value: nat)
    requires offset + 4 <= bytes.Length && value <= U32_MAX
    modifies bytes
    ensures At32(bytes[..], offset) == value
    ensures forall i :: 0 <= i < bytes.Length && !(offset <= i < offset + 4) ==> bytes[i] == old(bytes[i])
  {
    Digits(value);
    bytes[offset] := value % 0x100;
    bytes[offset + 1] := value / 0x100 % 0x100;
    bytes[offset + 2] := value / 0x1_0000 % 0x100;
    bytes[offset + 3] := value / 0x100_0000;
  }

  method CopyInto(bytes: array<Byte>, offset: nat, source: seq<Byte>)
    requires offset + |source| <= bytes.Length
    modifies bytes
    ensures bytes[offset..offset + |source|] == source
    ensures forall i :: offset <= i < offset + |source| ==> bytes[i] == source[i - offset]
    ensures forall i :: 0 <= i < bytes.Length && !(offset <= i < offset + |source|) ==> bytes[i] == old(bytes[i])
  {
    forall k | 0 <= k < |source| {
      bytes[offset + k] := source[k];
    }
  }

  method WriteFileHeader(bytes: array<Byte>)
    requires bytes.Length >= SECTION_RAW_DATA_PTR
    modifies bytes
    ensures HasFileHeader(bytes[..], 1)
    ensures forall i :: OPTIONAL_HEADER_OFFSET <= i < bytes.Length ==> bytes[i] == old(bytes[i])
  {
    CopyInto(bytes, 0, MZ);
    WriteU32(bytes, 0x3C, PE_OFFSET);
    CopyInto(bytes, PE_OFFSET, SIGNATURE);
    WriteU16(bytes, PE_OFFSET + 4, 0x8664);
    WriteU16(bytes, PE_OFFSET + 6, 1);
    WriteU16(bytes, PE_OFFSET + 20, OPTIONAL_HEADER_SIZE);
  }

  method WriteOptionalHeader(bytes: array<Byte>, importRva: nat, importSize: nat)
    requires bytes.Length >= SECTION_RAW_DATA_PTR && importRva <= U32_MAX && importSize <= U32_MAX
    requires ZeroFrom(bytes[..], DATA_DIR_START, SECTION_TABLE_OFFSET)
    modifies bytes
    ensures HasOptionalHeader(bytes[..], importRva, importSize, 0, 0)
    ensures forall i :: 0 <= i < bytes.Length && !(OPTIONAL_HEADER_OFFSET <= i < SECTION_TABLE_OFFSET) ==>
              bytes[i] == old(bytes[i])
  {
    WriteU16(bytes, OPTIONAL_HEADER_OFFSET, 0x020B);
    WriteU32(bytes, DATA_DIR_START + 8, importRva);
    WriteU32(bytes, DATA_DIR_START + 12, importSize);
  }

  method WriteSectionHeader(bytes: array<Byte>, base: nat, name: seq<Byte>, s: Section)
    requires base + 40 <= bytes.Length && |name| <= 8
    requires s.virtualAddress <= U32_MAX && s.virtualSize <= U32_MAX
    requires s.rawDataPtr <= U32_MAX && s.rawDataSize <= U32_MAX
    modifies bytes
    ensures HasSection(bytes[..], base, s) && bytes[base..base + |name|] == name
    ensures forall i :: 0 <= i < bytes.Length && !(base <= i < base + 40) ==> bytes[i] == old(bytes[i])
  {
    CopyInto(bytes, base, name);
    WriteU32(bytes, base + 8, s.virtualSize);
    WriteU32(bytes, base + 12, s.virtualAddress);
    WriteU32(bytes, base + 16, s.rawDataSize);
    WriteU32(bytes, base + 20, s.rawDataPtr);
  }

  /** The header writes of `build_test_pe`, into a buffer that is still all zero. */
  method WriteHeaders(bytes: array<Byte>, importRva: nat, importSize: nat, s: Section)
    requires bytes.Length >= SECTION_RAW_DATA_PTR && ZeroFrom(bytes[..], 0, bytes.Length)
    requires importRva <= U32_MAX && importSize <= U32_MAX
    requires s.virtualAddress <= U32_MAX && s.virtualSize <= U32_MAX
    requires s.rawDataPtr <= U32_MAX && s.rawDataSize <= U32_MAX
    modifies bytes
    ensures HasHeaders(bytes[..], importRva, importSize, 0, 0, [s])
    ensures ZeroFrom(bytes[..], SECTION_RAW_DATA_PTR, bytes.Length)
  {
    WriteFileHeader(bytes);
    WriteOptionalHeader(bytes, importRva, importSize);
    WriteSectionHeader(bytes, SECTION_TABLE_OFFSET, [0x2E, 0x72, 0x64, 0x61, 0x74, 0x61], s);
    assert bytes[..][0..2] == MZ && bytes[..][PE_OFFSET..PE_OFFSET + 4] == SIGNATURE;
  }

  /** A write confined to the `k`-th descriptor and the `k`-th name keeps the entries before it. */
  lemma EntryKept(before: seq<Byte>, after: seq<Byte>, names: seq<seq<Byte>>, j: nat, k: nat)
    requires |before| == |after| == SECTION_RAW_DATA_PTR + SectionSize(names)
    requires j < k < |names| && HasEntry(before, names, j)
    requires forall i :: 0 <= i < |after| && before[i] != after[i] ==>
               || SECTION_RAW_DATA_PTR + 20 * k <= i < SECTION_RAW_DATA_PTR + 20 * k + 20
               || NameStart(names, k) <= i
    ensures HasEntry(after, names, j)
  {
    NamesInBounds(names, j);
    NamesInBounds(names, k);
    NameOffsetsGrow(names, j, k);
    var start := NameStart(names, j);
    assert after[start..start + |names[j]|] == before[start..start + |names[j]|];
  }

  lemma BodyKept(before: seq<Byte>, after: seq<Byte>, names: seq<seq<Byte>>, k: nat)
    requires |before| == |after| == SECTION_RAW_DATA_PTR + SectionSize(names)
    requires k < |names| && HasBody(before, names, k)
    requires forall i :: 0 <= i < |after| && before[i] != after[i] ==>
               || SECTION_RAW_DATA_PTR + 20 * k <= i < SECTION_RAW_DATA_PTR + 20 * k + 20
               || NameStart(names, k) <= i
    ensures HasBody(after, names, k)
  {
    forall j | 0 <= j < k ensures HasEntry(after, names, j) {
      EntryKept(before, after, names, j, k);
    }
  }

  lemma EntryWritten(before: seq<Byte>, after: seq<Byte>, names: seq<seq<Byte>>, k: nat)
    requires |before| == |after| == SECTION_RAW_DATA_PTR + SectionSize(names) && k < |names|
    requires NameStart(names, k) + |names[k]| < |after|
    requires var off := SECTION_RAW_DATA_PTR + 20 * k;
             && off + 20 < NameStart(names, k)
             && ZeroFrom(before, off, off + 20)
             && (forall i :: off <= i < off + 12 || off + 16 <= i < off + 20 ==> after[i] == before[i])
             && At32(after, off + 12) == SECTION_VIRTUAL_ADDRESS + DescriptorBytes(names) + NameOffset(names, k)
    requires HasName(after, names, k)
    ensures HasEntry(after, names, k)
  {
  }

  /** One turn of the loop of `build_test_pe`: a descriptor, the name and its terminator. */
  method WriteEntry(bytes: array<Byte>, names: seq<seq<Byte>>, idx: nat, cursor: nat)
    requires Fits(names) && bytes.Length == SECTION_RAW_DATA_PTR + SectionSize(names)
    requires idx < |names| && cursor == NameStart(names, idx)
    requires HasBody(bytes[..], names, idx)
    requires ZeroFrom(bytes[..], SECTION_RAW_DATA_PTR + 20 * idx, SECTION_RAW_DATA_PTR + DescriptorBytes(names))
    modifies bytes
    ensures forall i :: 0 <= i < SECTION_RAW_DATA_PTR ==> bytes[i] == old(bytes[i])
    ensures HasBody(bytes[..], names, idx + 1)
    ensures ZeroFrom(bytes[..], SECTION_RAW_DATA_PTR + 20 * (idx + 1), SECTION_RAW_DATA_PTR + DescriptorBytes(names))
  {
    NamesInBounds(names, idx);
    ghost var before := bytes[..];
    var descriptorOffset := SECTION_RAW_DATA_PTR + idx * 20;
    var nameRva := SECTION_VIRTUAL_ADDRESS + (cursor - SECTION_RAW_DATA_PTR);
    WriteU32(bytes, descriptorOffset + 12, nameRva);
    CopyInto(bytes, cursor, names[idx]);
    bytes[cursor + |names[idx]|] := 0;
    BodyKept(before, bytes[..], names, idx);
    EntryWritten(before, bytes[..], names, idx);
  }

  method BuildTestPe(names: seq<seq<Byte>>) returns (bytes: array<Byte>)
    requires Fits(names)
    ensures fresh(bytes) && IsImportImage(bytes[..], names)
  {
    var descriptorBytes := (|names| + 1) * 20;
    var stringsBytes := NameOffset(names, |names|);
    var sectionSize := Max(descriptorBytes, 1) + Max(stringsBytes, 1);
    bytes := new Byte[SECTION_RAW_DATA_PTR + sectionSize](_ => 0);
    WriteHeaders(bytes, ImportRva(names), descriptorBytes,
                 Section(SECTION_VIRTUAL_ADDRESS, sectionSize, SECTION_RAW_DATA_PTR, sectionSize));
    ghost var header := bytes[..];
    var cursor := SECTION_RAW_DATA_PTR + descriptorBytes;
    for idx := 0 to |names|
      invariant cursor == NameStart(names, idx)
      invariant forall i :: 0 <= i < SECTION_RAW_DATA_PTR ==> bytes[i] == header[i]
      invariant HasBody(bytes[..], names, idx)
      invariant ZeroFrom(bytes[..], SECTION_RAW_DATA_PTR + 20 * idx, SECTION_RAW_DATA_PTR + DescriptorBytes(names))
    {
      WriteEntry(bytes, names, idx, cursor);
      cursor := cursor + |names[idx]| + 1;
    }
    HeadersLocal(header, bytes[..], ImportRva(names), descriptorBytes, 0, 0, [ImportSection(names)]);
  }

  // ---------- the import round trip ----------

  /** The names a Rust `&str` list can hold. */
  predicate AreTexts(names: seq<seq<Byte>>) {
    forall j :: 0 <= j < |names| ==> ValidUtf8(names[j])
  }

  /** What a reader sees of a name: it ends at the first NUL. */
  function Ended(name: seq<Byte>): seq<Byte> {
    name[..NulAt(name, 0)]
  }

  function Shown(names: seq<seq<Byte>>): seq<seq<Byte>> {
    if names == [] then [] else [Ended(names[0])] + Shown(names[1..])
  }

  lemma {:induction false} ShownAt(names: seq<seq<Byte>>)
    ensures |Shown(names)| == |names| && forall j :: 0 <= j < |names| ==> Shown(names)[j] == Ended(names[j])
  {
    if names != [] { ShownAt(names[1..]); }
  }

  /** Names without a NUL show whole. */
  lemma {:induction false} PlainNamesShow(names: seq<seq<Byte>>)
    requires forall j :: 0 <= j < |names| ==> 0 !in names[j]
    ensures Shown(names) == names
  {
    if names != [] {
      PlainNamesShow(names[1..]);
      assert Ended(names[0]) == names[0];
      assert names == [names[0]] + names[1..];
    }
  }

  lemma {:induction false} NulIs(data: seq<Byte>, i: nat, end: nat)
    requires i <= end <= |data| && (end < |data| ==> data[end] == 0) && forall k :: i <= k < end ==> data[k] != 0
    ensures NulAt(data, i) == end
    decreases end - i
  {
    if i < end { NulIs(data, i + 1, end); }
  }

  lemma LeadBytes(s: seq<Byte>)
    requires s != [] && s[0] != 0 && Utf8Lead(s) > 0
    ensures forall k :: 0 <= k < Utf8Lead(s) ==> s[k] != 0
  {
  }

  lemma LeadInPrefix(s: seq<Byte>, end: nat)
    requires s != [] && 0 < Utf8Lead(s) <= end <= |s|
    ensures Utf8Lead(s[..end]) == Utf8Lead(s)
  {
  }

  /** What is shown of valid UTF-8 is valid: a NUL never lies inside a longer sequence. */
  lemma {:induction false} EndedIsText(s: seq<Byte>)
    requires ValidUtf8(s)
    ensures ValidUtf8(Ended(s))
    decreases |s|
  {
    if s != [] && s[0] != 0 {
      var n, end := Utf8Lead(s), NulAt(s, 0);
      LeadBytes(s);
      assert n <= end;
      LeadInPrefix(s, end);
      var rest := s[n..];
      NulIs(rest, 0, end - n);
      EndedIsText(rest);
      assert s[..end][n..] == rest[..end - n];
    }
  }

  ghost predicate Reads(data: seq<Byte>, sections: seq<Section>, off: nat, name: seq<Byte>) {
    && off + 20 <= |data|
    && !IsNullDescriptor(data, off)
    && DescriptorName(data, sections, off) == Ok(name)
  }

  lemma EntryReads(data: seq<Byte>, names: seq<seq<Byte>>, j: nat)
    requires |data| == SECTION_RAW_DATA_PTR + SectionSize(names) && Fits(names) && AreTexts(names)
    requires j < |names| && HasEntry(data, names, j)
    ensures Reads(data, [ImportSection(names)], SECTION_RAW_DATA_PTR + 20 * j, Ended(names[j]))
  {
    NamesInBounds(names, j);
    var off := SECTION_RAW_DATA_PTR + 20 * j;
    var start := NameStart(names, j);
    var rva := At32(data, off + 12);
    assert rva - SECTION_VIRTUAL_ADDRESS + SECTION_RAW_DATA_PTR == start;
    assert RvaToOffset(rva, [ImportSection(names)]) == Some(start);
    EndedIsText(names[j]);
    NameInPlace(data, names[j], start);
  }

  /** A terminated name at its place in the file reads as what is shown of it. */
  lemma NameInPlace(data: seq<Byte>, name: seq<Byte>, start: nat)
    requires start + |name| < |data| && data[start..start + |name|] == name && data[start + |name|] == 0
    ensures NulAt(data, start) == start + |Ended(name)|
    ensures data[start..start + |Ended(name)|] == Ended(name)
  {
    var n := |Ended(name)|;
    forall k | start <= k < start + |name| ensures data[k] == name[k - start] {
      assert data[k] == data[start..start + |name|][k - start];
    }
    NulIs(data, start, start + n);
  }

  lemma {:induction false} EntriesMakeTable(
    data: seq<Byte>, sections: seq<Section>, off: nat, names: seq<seq<Byte>>, j: nat)
    requires j <= |names| && off + 20 * |names| + 20 <= |data| && IsNullDescriptor(data, off + 20 * |names|)
    requires forall k :: 0 <= k < |names| ==> Reads(data, sections, off + 20 * k, names[k])
    ensures DescriptorTable(data, sections, off + 20 * j, names[j..])
    decreases |names| - j
  {
    if j == |names| {
      assert names[j..] == [];
    } else {
      assert Reads(data, sections, off + 20 * j, names[j]);
      EntriesMakeTable(data, sections, off, names, j + 1);
      assert names[j..][1..] == names[j + 1..];
      assert off + 20 * j + 20 == off + 20 * (j + 1);
    }
  }

  lemma BodyHoldsTable(data: seq<Byte>, names: seq<seq<Byte>>)
    requires HoldsNames(data, names) && Fits(names) && AreTexts(names) && names != []
    ensures DescriptorTable(data, [ImportSection(names)], SECTION_RAW_DATA_PTR, Shown(names))
  {
    ShownAt(names);
    forall k | 0 <= k < |names|
      ensures Reads(data, [ImportSection(names)], SECTION_RAW_DATA_PTR + 20 * k, Shown(names)[k])
    {
      assert HasEntry(data, names, k);
      EntryReads(data, names, k);
    }
    EntriesMakeTable(data, [ImportSection(names)], SECTION_RAW_DATA_PTR, Shown(names), 0);
    assert Shown(names)[0..] == Shown(names);
  }

  /** A file whose one section is the import section of these names; its headers are those of a 32-bit
      or a 64-bit image, for any machine. */
  ghost predicate HoldsNames(data: seq<Byte>, names: seq<seq<Byte>>) {
    && |data| == SECTION_RAW_DATA_PTR + SectionSize(names)
    && (exists machine, resourceRva ::
          HoldsLayout(data, Layout(ImportRva(names), resourceRva, machine, [ImportSection(names)])))
    && ZeroFrom(data, SECTION_RAW_DATA_PTR + 20 * |names|, SECTION_RAW_DATA_PTR + DescriptorBytes(names))
    && HasBody(data, names, |names|)
  }

  lemma ImageHoldsNames(data: seq<Byte>, names: seq<seq<Byte>>)
    requires IsImportImage(data, names)
    ensures HoldsNames(data, names)
  {
    var layout := Layout(ImportRva(names), 0, 0x8664, [ImportSection(names)]);
    HeadersParse(data, ImportRva(names), DescriptorBytes(names), 0, 0, [ImportSection(names)]);
    LayoutExactlyWhen(data, layout);
  }

  /** The image as a 32-bit one: the other magic, and the import directory 16 bytes further up. */
  function As32Bit(data: seq<Byte>, names: seq<seq<Byte>>): seq<Byte>
    requires |data| >= SECTION_RAW_DATA_PTR
  {
    data[0x98 := 0x0B][0x99 := 0x01]
        [0x100 := 0][0x101 := if names == [] then 0 else 0x10][0x102 := 0][0x103 := 0]
  }

  lemma As32BitNumbers(data: seq<Byte>, data': seq<Byte>, names: seq<seq<Byte>>)
    requires IsImportImage(data, names) && |data'| == |data|
    requires forall i :: 0 <= i < |data| && i != 0x98 && i != 0x99 && !(0x100 <= i < 0x104) ==> data'[i] == data[i]
    requires At16(data', 0x98) == 0x010B && At32(data', 0x100) == ImportRva(names)
    ensures NumbersRead(data', Layout(ImportRva(names), At32(data', 0x108), 0x8664, [ImportSection(names)]),
                        0x98, 0xF0, 0x010B)
  {
  }

  lemma SectionKeeps(data: seq<Byte>, data': seq<Byte>, names: seq<seq<Byte>>)
    requires IsImportImage(data, names) && |data'| == |data|
    requires forall i :: 0x188 <= i < |data| ==> data'[i] == data[i]
    ensures HoldsSections(data', 0x188, [ImportSection(names)])
  {
    var sections := [ImportSection(names)];
    assert HasSection(data, SECTION_TABLE_OFFSET + 40 * 0, sections[0]);
    SectionKept(data, data', 0x188, sections[0]);
    SectionMeaning(data', 0x188, sections[0]);
  }

  lemma As32BitHoldsHeaders(data: seq<Byte>, names: seq<seq<Byte>>)
    requires IsImportImage(data, names)
    ensures var data' := As32Bit(data, names);
            HoldsHeaders(data', Layout(ImportRva(names), At32(data', 0x108), 0x8664, [ImportSection(names)]),
                         0x98, 0xF0, 0x010B)
  {
    var data', s := As32Bit(data, names), ImportSection(names);
    As32BitNumbers(data, data', names);
    assert data[0..2][0] == data[0] && data[0..2][1] == data[1];
    SignatureBytes(data, 0x80);
    SectionKeeps(data, data', names);
    NumbersHold(data', Layout(ImportRva(names), At32(data', 0x108), 0x8664, [s]), 0x98, 0xF0, 0x010B);
  }

  /** A 32-bit image of every import list. */
  lemma As32BitHoldsNames(data: seq<Byte>, names: seq<seq<Byte>>)
    requires IsImportImage(data, names)
    ensures HoldsNames(As32Bit(data, names), names)
  {
    var data' := As32Bit(data, names);
    As32BitHoldsHeaders(data, names);
    forall j | 0 <= j < |names| ensures HasEntry(data', names, j) {
      var start, n := NameStart(names, j), |names[j]|;
      NamesInBounds(names, j);
      assert HasEntry(data, names, j);
      assert data'[start..start + n] == data[start..start + n];
    }
  }

  /** Such a file has these imports in its layout. */
  lemma NamesLayout(data: seq<Byte>, names: seq<seq<Byte>>)
    requires HoldsNames(data, names)
    ensures ParseLayout(data).Ok?
    ensures ParseLayout(data).value.importRva == ImportRva(names)
    ensures ParseLayout(data).value.sections == [ImportSection(names)]
  {
    var machine, resourceRva :|
      HoldsLayout(data, Layout(ImportRva(names), resourceRva, machine, [ImportSection(names)]));
    LayoutExactlyWhen(data, Layout(ImportRva(names), resourceRva, machine, [ImportSection(names)]));
  }

  /** Reading back such a file, of either format, gives the strictly ordered set of its lowercased
      names, each up to its first NUL. */
  lemma ImportRoundTrip(data: seq<Byte>, names: seq<seq<Byte>>)
    requires HoldsNames(data, names) && Fits(names) && AreTexts(names)
    ensures DirectImports(data).Ok? && OrderedSetOf(DirectImports(data).value, Lowered(Shown(names)))
  {
    NamesLayout(data, names);
    if names != [] {
      BodyHoldsTable(data, names);
      TableGivesImports(data, SECTION_RAW_DATA_PTR, Shown(names));
    }
  }

  /** Names without a NUL come back whole. */
  lemma PlainImportRoundTrip(data: seq<Byte>, names: seq<seq<Byte>>)
    requires HoldsNames(data, names) && Fits(names) && AreTexts(names)
    requires forall j :: 0 <= j < |names| ==> 0 !in names[j]
    ensures DirectImports(data).Ok? && OrderedSetOf(DirectImports(data).value, Lowered(names))
  {
    ImportRoundTrip(data, names);
    PlainNamesShow(names);
  }

  // ---------- the manifest image ----------

  const RSRC_RAW: nat := SECTION_RAW_DATA_PTR + 21
  const RSRC_FIXED: nat := 0x58

  predicate PayloadFits(payload: seq<Byte>) {
    RSRC_VIRTUAL_ADDRESS + RSRC_FIXED + |payload| <= U32_MAX
  }

  /** A resource directory with one entry, which carries an ID. */
  predicate HasDirectory(data: seq<Byte>, at: nat, id: nat, offsetToData: nat) {
    && at + 24 <= |data|
    && At16(data, at + 12) == 0 && At16(data, at + 14) == 1
    && At32(data, at + 16) == id && At32(data, at + 20) == offsetToData
  }

  /** Three directory levels, a data entry and the payload, from `base` on. */
  predicate HasResources(data: seq<Byte>, base: nat, payload: seq<Byte>) {
    && base + RSRC_FIXED + |payload| <= |data|
    && HasDirectory(data, base, RT_MANIFEST, 0x8000_0018)
    && HasDirectory(data, base + 0x18, 1, 0x8000_0030)
    && HasDirectory(data, base + 0x30, 0x409, 0x48)
    && At32(data, base + 0x48) == RSRC_VIRTUAL_ADDRESS + RSRC_FIXED
    && At32(data, base + 0x4C) == |payload|
    && data[base + RSRC_FIXED..base + RSRC_FIXED + |payload|] == payload
  }

  function ResourceSection(payload: seq<Byte>): Section {
    Section(RSRC_VIRTUAL_ADDRESS, RSRC_FIXED + |payload|, RSRC_RAW, RSRC_FIXED + |payload|)
  }

  ghost predicate IsManifestImage(data: seq<Byte>, payload: seq<Byte>) {
    && |data| == RSRC_RAW + RSRC_FIXED + |payload|
    && HasHeaders(data, 0, 20, RSRC_VIRTUAL_ADDRESS, RSRC_FIXED + |payload|,
                  [ImportSection([]), ResourceSection(payload)])
    && HasResources(data, RSRC_RAW, payload)
  }

  method WriteDirectory(rsrc: array<Byte>, at: nat, id: nat, offsetToData: nat)
    requires at + 24 <= rsrc.Length && id <= U32_MAX && offsetToData <= U32_MAX
    requires ZeroFrom(rsrc[..], at, at + 24)
    modifies rsrc
    ensures HasDirectory(rsrc[..], at, id, offsetToData)
    ensures forall i :: 0 <= i < rsrc.Length && !(at <= i < at + 24) ==> rsrc[i] == old(rsrc[i])
  {
    WriteU16(rsrc, at + 14, 1);
    WriteU32(rsrc, at + 16, id);
    WriteU32(rsrc, at + 20, offsetToData);
  }

  method WriteResources(payload: seq<Byte>) returns (rsrc: array<Byte>)
    requires PayloadFits(payload)
    ensures fresh(rsrc) && rsrc.Length == RSRC_FIXED + |payload| && HasResources(rsrc[..], 0, payload)
  {
    rsrc := new Byte[RSRC_FIXED + |payload|](_ => 0);
    WriteDirectory(rsrc, 0, RT_MANIFEST, 0x8000_0018);
    WriteDirectory(rsrc, 0x18, 1, 0x8000_0030);
    WriteDirectory(rsrc, 0x30, 0x409, 0x48);
    WriteU32(rsrc, 0x48, RSRC_VIRTUAL_ADDRESS + RSRC_FIXED);
    WriteU32(rsrc, 0x4C, |payload|);
    CopyInto(rsrc, RSRC_FIXED, payload);
    assert rsrc[..][0 + RSRC_FIXED..0 + RSRC_FIXED + |payload|] == payload;
  }

  /** Resources keep their meaning wherever their bytes are moved. */
  lemma ResourcesMoved(rsrc: seq<Byte>, data: seq<Byte>, base: nat, payload: seq<Byte>)
    requires HasResources(rsrc, 0, payload) && |rsrc| == RSRC_FIXED + |payload|
    requires base + |rsrc| <= |data| && forall i :: 0 <= i < |rsrc| ==> data[base + i] == rsrc[i]
    ensures HasResources(data, base, payload)
  {
    var p := data[base + RSRC_FIXED..base + RSRC_FIXED + |payload|];
    var q := rsrc[0 + RSRC_FIXED..0 + RSRC_FIXED + |payload|];
    forall k | 0 <= k < |payload| ensures p[k] == q[k] {
      assert data[base + (RSRC_FIXED + k)] == rsrc[RSRC_FIXED + k];
    }
    forall at, id, off | 0 <= at <= 0x30 && HasDirectory(rsrc, at, id, off)
      ensures HasDirectory(data, base + at, id, off)
    {
      DirectoryMoved(rsrc, data, base, at, id, off);
    }
    assert HasDirectory(rsrc, 0 + 0x18, 1, 0x8000_0030) && HasDirectory(rsrc, 0 + 0x30, 0x409, 0x48);
    WordMoved(rsrc, data, base, 0x48);
    WordMoved(rsrc, data, base, 0x4C);
  }

  lemma WordMoved(rsrc: seq<Byte>, data: seq<Byte>, base: nat, at: nat)
    requires at + 4 <= |rsrc| && base + |rsrc| <= |data|
    requires forall i :: 0 <= i < |rsrc| ==> data[base + i] == rsrc[i]
    ensures At32(data, base + at) == At32(rsrc, at) && At16(data, base + at) == At16(rsrc, at)
  {
    assert data[base + at] == rsrc[at] && data[base + (at + 1)] == rsrc[at + 1]
        && data[base + (at + 2)] == rsrc[at + 2] && data[base + (at + 3)] == rsrc[at + 3];
  }

  lemma DirectoryMoved(rsrc: seq<Byte>, data: seq<Byte>, base: nat, at: nat, id: nat, off: nat)
    requires HasDirectory(rsrc, at, id, off) && base + |rsrc| <= |data|
    requires forall i :: 0 <= i < |rsrc| ==> data[base + i] == rsrc[i]
    ensures HasDirectory(data, base + at, id, off)
  {
    WordMoved(rsrc, data, base, at + 12);
    WordMoved(rsrc, data, base, at + 14);
    WordMoved(rsrc, data, base, at + 16);
    WordMoved(rsrc, data, base, at + 20);
  }

  lemma FileHeaderRecounted(before: seq<Byte>, after: seq<Byte>, count: nat, count': nat)
    requires |before| == |after| >= SECTION_RAW_DATA_PTR && HasFileHeader(before, count)
    requires forall i :: 0 <= i < OPTIONAL_HEADER_OFFSET && !(PE_OFFSET + 6 <= i < PE_OFFSET + 8) ==>
               after[i] == before[i]
    requires At16(after, PE_OFFSET + 6) == count'
    ensures HasFileHeader(after, count')
  {
    assert after[0..2] == before[0..2] && after[PE_OFFSET..PE_OFFSET + 4] == before[PE_OFFSET..PE_OFFSET + 4];
  }

  lemma SectionKept(before: seq<Byte>, after: seq<Byte>, base: nat, s: Section)
    requires |before| == |after| && HasSection(before, base, s)
    requires forall i :: base <= i < base + 40 ==> after[i] == before[i]
    ensures HasSection(after, base, s)
  {
  }

  /** The header patches that turn a one-section image into the manifest image. */
  method PatchHeaders(bytes: array<Byte>, rsrcLen: nat, ghost first: Section)
    requires bytes.Length >= RSRC_RAW && RSRC_VIRTUAL_ADDRESS + rsrcLen <= U32_MAX
    requires HasFileHeader(bytes[..], 1) && HasOptionalHeader(bytes[..], 0, 20, 0, 0)
    requires HasSection(bytes[..], SECTION_TABLE_OFFSET, first)
    modifies bytes
    ensures HasFileHeader(bytes[..], 2) && HasOptionalHeader(bytes[..], 0, 20, RSRC_VIRTUAL_ADDRESS, rsrcLen)
    ensures HasSection(bytes[..], SECTION_TABLE_OFFSET, first)
    ensures HasSection(bytes[..], SECTION_TABLE_OFFSET + 40, Section(RSRC_VIRTUAL_ADDRESS, rsrcLen, RSRC_RAW, rsrcLen))
    ensures forall i :: SECTION_RAW_DATA_PTR <= i < bytes.Length ==> bytes[i] == old(bytes[i])
  {
    ghost var before := bytes[..];
    WriteU16(bytes, PE_OFFSET + 6, 2);
    WriteSectionHeader(bytes, SECTION_TABLE_OFFSET + 40, [0x2E, 0x72, 0x73, 0x72, 0x63],
                       Section(RSRC_VIRTUAL_ADDRESS, rsrcLen, RSRC_RAW, rsrcLen));
    WriteU32(bytes, DATA_DIR_START + 16, RSRC_VIRTUAL_ADDRESS);
    WriteU32(bytes, DATA_DIR_START + 20, rsrcLen);
    FileHeaderRecounted(before, bytes[..], 1, 2);
    SectionKept(before, bytes[..], SECTION_TABLE_OFFSET, first);
  }

  /** `extend_from_slice`: a new buffer with the resources behind the image. */
  method Extended(image: array<Byte>, rsrc: array<Byte>) returns (bytes: array<Byte>)
    ensures fresh(bytes) && bytes.Length == image.Length + rsrc.Length
    ensures forall i :: 0 <= i < image.Length ==> bytes[i] == image[i]
    ensures forall i :: image.Length <= i < bytes.Length ==> bytes[i] == rsrc[i - image.Length]
  {
    bytes := new Byte[image.Length + rsrc.Length](_ => 0);
    CopyInto(bytes, 0, image[..]);
    CopyInto(bytes, image.Length, rsrc[..]);
  }

  lemma HeadersFromParts(data: seq<Byte>, importSize: nat, resourceRva: nat, resourceSize: nat, a: Section, b: Section)
    requires |data| >= SECTION_RAW_DATA_PTR
    requires HasFileHeader(data, 2) && HasOptionalHeader(data, 0, importSize, resourceRva, resourceSize)
    requires HasSection(data, SECTION_TABLE_OFFSET, a) && HasSection(data, SECTION_TABLE_OFFSET + 40, b)
    ensures HasHeaders(data, 0, importSize, resourceRva, resourceSize, [a, b])
  {
  }

  method BuildTestPeWithManifest(payload: seq<Byte>) returns (bytes: array<Byte>)
    requires PayloadFits(payload)
    ensures fresh(bytes) && IsManifestImage(bytes[..], payload)
  {
    var image := BuildTestPe([]);
    var rsrc := WriteResources(payload);
    bytes := Extended(image, rsrc);
    ghost var sections := [ImportSection([])];
    HeadersLocal(image[..], bytes[..], 0, 20, 0, 0, sections);
    assert HasSection(bytes[..], SECTION_TABLE_OFFSET + 40 * 0, sections[0]);
    PatchHeaders(bytes, rsrc.Length, sections[0]);
    HeadersFromParts(bytes[..], 20, RSRC_VIRTUAL_ADDRESS, rsrc.Length, sections[0], ResourceSection(payload));
    ResourcesMoved(rsrc[..], bytes[..], RSRC_RAW, payload);
  }

  // ---------- the manifest round trip ----------

  lemma DirectoryLeadsOn(data: seq<Byte>, base: nat, at: nat, id: nat, target: nat, want: Option<nat>)
    requires HasDirectory(data, at, id, target) && id < 0x8000_0000
    requires want == None || want == Some(id)
    ensures FindResourceEntry(data, base, at, want) == Some(base + target % 0x8000_0000)
  {
    assert FindEntry(data, base, at + 16, 1, want) == Some(EntryTarget(base, At32(data, at + 20)));
  }

  /** A file with these resources in its second section; its headers are those of a 32-bit or a 64-bit
      image, for any machine and import directory. */
  ghost predicate HoldsPayload(data: seq<Byte>, payload: seq<Byte>) {
    && (exists importRva, machine ::
          HoldsLayout(data, Layout(importRva, RSRC_VIRTUAL_ADDRESS, machine,
                                   [ImportSection([]), ResourceSection(payload)])))
    && HasResources(data, RSRC_RAW, payload)
  }

  lemma ImageHoldsPayload(data: seq<Byte>, payload: seq<Byte>)
    requires IsManifestImage(data, payload)
    ensures HoldsPayload(data, payload)
  {
    var sections := [ImportSection([]), ResourceSection(payload)];
    HeadersParse(data, 0, 20, RSRC_VIRTUAL_ADDRESS, RSRC_FIXED + |payload|, sections);
    LayoutExactlyWhen(data, Layout(0, RSRC_VIRTUAL_ADDRESS, 0x8664, sections));
  }

  /** Reading the manifest back from such a file, of either format, gives the payload, except that an
      empty one is not found: its RVA is the first one behind the section. */
  lemma ManifestRoundTrip(data: seq<Byte>, payload: seq<Byte>)
    requires HoldsPayload(data, payload) && PayloadFits(payload)
    ensures ManifestPayload(data) == if payload == [] then None else Some(payload)
    ensures EmbeddedManifest(data) == if payload == [] then None else Some(DecodeManifestText(payload))
  {
    var sections := [ImportSection([]), ResourceSection(payload)];
    var importRva, machine :| HoldsLayout(data, Layout(importRva, RSRC_VIRTUAL_ADDRESS, machine, sections));
    LayoutExactlyWhen(data, Layout(importRva, RSRC_VIRTUAL_ADDRESS, machine, sections));
    assert sections[1..] == [ResourceSection(payload)];
    assert RvaToOffset(RSRC_VIRTUAL_ADDRESS, sections)
        == RvaToOffset(RSRC_VIRTUAL_ADDRESS, sections[1..]) == Some(RSRC_RAW);
    EntryReached(data, payload);
    PayloadReads(data, payload);
  }

  lemma TypeLevel(data: seq<Byte>, payload: seq<Byte>)
    requires HasResources(data, RSRC_RAW, payload)
    ensures FindResourceEntry(data, RSRC_RAW, RSRC_RAW, Some(RT_MANIFEST)) == Some(RSRC_RAW + 0x18)
  {
    DirectoryLeadsOn(data, RSRC_RAW, RSRC_RAW, RT_MANIFEST, 0x8000_0018, Some(RT_MANIFEST));
  }

  lemma NameLevel(data: seq<Byte>, payload: seq<Byte>)
    requires HasResources(data, RSRC_RAW, payload)
    ensures FindResourceEntry(data, RSRC_RAW, RSRC_RAW + 0x18, None) == Some(RSRC_RAW + 0x30)
  {
    DirectoryLeadsOn(data, RSRC_RAW, RSRC_RAW + 0x18, 1, 0x8000_0030, None);
  }

  lemma LanguageLevel(data: seq<Byte>, payload: seq<Byte>)
    requires HasResources(data, RSRC_RAW, payload)
    ensures FindResourceEntry(data, RSRC_RAW, RSRC_RAW + 0x30, None) == Some(RSRC_RAW + 0x48)
  {
    DirectoryLeadsOn(data, RSRC_RAW, RSRC_RAW + 0x30, 0x409, 0x48, None);
  }

  lemma EntryReached(data: seq<Byte>, payload: seq<Byte>)
    requires HasResources(data, RSRC_RAW, payload)
    ensures ManifestEntry(data, RSRC_RAW) == Some(RSRC_RAW + 0x48)
  {
    TypeLevel(data, payload);
    NameLevel(data, payload);
    LanguageLevel(data, payload);
  }

  lemma PayloadReads(data: seq<Byte>, payload: seq<Byte>)
    requires HasResources(data, RSRC_RAW, payload) && PayloadFits(payload)
    ensures EntryPayload(data, [ImportSection([]), ResourceSection(payload)], RSRC_RAW + 0x48)
         == if payload == [] then None else Some(payload)
  {
    var sections := [ImportSection([]), ResourceSection(payload)];
    var rva := RSRC_VIRTUAL_ADDRESS + RSRC_FIXED;
    assert sections[1..] == [ResourceSection(payload)] && sections[1..][1..] == [];
    assert RvaToOffset(rva, sections) == RvaToOffset(rva, sections[1..])
        == if payload == [] then None else Some(RSRC_RAW + RSRC_FIXED);
  }
}
