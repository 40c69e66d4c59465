/**
 The PE reader of src/pe.rs: header and section-table parsing, RVA mapping, the import
 descriptor table and the embedded manifest resource.

 A file is a sequence of bytes. Names and other text are sequences of byte-valued
 characters, one per byte, so that ASCII lowercasing and the order of strings are those of
 the source's UTF-8 strings. Offsets are the source's 64-bit `usize`, which no sum below
 can overflow; 32-bit fields saturate or fail exactly where the source says so.
 */
module Pe {
  import opened Wrappers
  import opened Text

  type Byte = x: int | 0 <= x < 256

  const U32_MAX: nat := 0xFFFF_FFFF

  datatype PeError =
    | TooSmall | NoMz | BadHeaderOffset | NoSignature | TruncatedOptionalHeader | OptionalHeaderTooSmall
    | UnsupportedFormat | NoDataDirectories | TruncatedSectionTable | UnexpectedEof
    | BadImportTableRva | TruncatedDescriptors | BadNameRva | BadStringOffset | UnterminatedString | NotUtf8

  datatype Section = Section(virtualAddress: nat, virtualSize: nat, rawDataPtr: nat, rawDataSize: nat)

  datatype Layout = Layout(importRva: nat, resourceRva: nat, machine: nat, sections: seq<Section>)

  // ---------- fields ----------

  function At16(data: seq<Byte>, off: nat): (r: nat)
    requires off + 2 <= |data|
    ensures r < 0x1_0000
  {
    data[off] as int + 0x100 * (data[off + 1] as int)
  }

  function At32(data: seq<Byte>, off: nat): (r: nat)
    requires off + 4 <= |data|
    ensures r <= U32_MAX
  {
    data[off] as int + 0x100 * (data[off + 1] as int)
    + 0x1_0000 * (data[off + 2] as int) + 0x100_0000 * (data[off + 3] as int)
  }

  function ReadU16(data: seq<Byte>, off: nat): Result<nat, PeError> {
    if off + 2 <= |data| then Ok(At16(data, off)) else Err(UnexpectedEof)
  }

  function ReadU32(data: seq<Byte>, off: nat): Result<nat, PeError> {
    if off + 4 <= |data| then Ok(At32(data, off)) else Err(UnexpectedEof)
  }

  // ---------- headers ----------

  const MZ: seq<Byte> := [0x4D, 0x5A]
  const SIGNATURE: seq<Byte> := [0x50, 0x45, 0, 0]

  function ReadSection(data: seq<Byte>, base: nat): Result<Section, PeError> {
    var virtualSize :- ReadU32(data, base + 8);
    var virtualAddress :- ReadU32(data, base + 12);
    var rawDataSize :- ReadU32(data, base + 16);
    var rawDataPtr :- ReadU32(data, base + 20);
    Ok(Section(virtualAddress, virtualSize, rawDataPtr, rawDataSize))
  }

  function ReadSections(data: seq<Byte>, base: nat, count: nat): Result<seq<Section>, PeError>
    decreases count
  {
    if count == 0 then Ok([])
    else
      var first :- ReadSection(data, base);
      var rest :- ReadSections(data, base + 40, count - 1);
      Ok([first] + rest)
  }

  /** How far behind the optional header's start the data directories are, by its magic. */
  function DataDirDistance(magic: nat): Option<nat> {
    if magic == 0x010B then Some(96)
    else if magic == 0x020B then Some(112)
    else None
  }

  /** Everything before the section table: the layout without its sections, where the table
      is, and how many entries it has. The length tests make every read in bounds, so the
      source's end-of-file error cannot come out of here. */
  function ParseHeaders(data: seq<Byte>): (r: Result<(Layout, nat, nat), PeError>)
    ensures r.Ok? ==> r.value.1 <= |data|
  {
    if |data| < 0x40 then Err(TooSmall)
    else if data[0..2] != MZ then Err(NoMz)
    else
      var peOffset := At32(data, 0x3C);
      if peOffset + 24 > |data| then Err(BadHeaderOffset)
      else if data[peOffset..peOffset + 4] != SIGNATURE then Err(NoSignature)
      else
        var numberOfSections := At16(data, peOffset + 6);
        var sizeOfOptionalHeader := At16(data, peOffset + 20);
        var optionalHeaderOff := peOffset + 24;
        var tableOff := optionalHeaderOff + sizeOfOptionalHeader;
        if tableOff > |data| then Err(TruncatedOptionalHeader)
        else if sizeOfOptionalHeader < 2 then Err(OptionalHeaderTooSmall)
        else
          match DataDirDistance(At16(data, optionalHeaderOff))
          case None => Err(UnsupportedFormat)
          case Some(distance) =>
            var dataDirStart := optionalHeaderOff + distance;
            if dataDirStart + 16 > tableOff then Err(NoDataDirectories)
            else
              var importRva := At32(data, dataDirStart + 8);
              var resourceRva := if dataDirStart + 24 <= tableOff then At32(data, dataDirStart + 16) else 0;
              var machine := At16(data, peOffset + 4);
              Ok((Layout(importRva, resourceRva, machine, []), tableOff, numberOfSections))
  }

  /** `parse_pe_layout` */
  function ParseLayout(data: seq<Byte>): Result<Layout, PeError> {
    var (headers, tableOff, count) :- ParseHeaders(data);
    if tableOff + count * 40 > |data| then Err(TruncatedSectionTable)
    else
      var sections :- ReadSections(data, tableOff, count);
      Ok(headers.(sections := sections))
  }

  lemma {:induction false} ReadSectionsAppend(data: seq<Byte>, base: nat, count: nat)
    requires ReadSections(data, base, count).Ok?
    ensures ReadSections(data, base, count + 1)
         == match ReadSection(data, base + 40 * count)
            case Ok(s) => Ok(ReadSections(data, base, count).value + [s])
            case Err(e) => Err(e)
    decreases count
  {
    if count > 0 {
      ReadSectionsAppend(data, base + 40, count - 1);
      var first := ReadSection(data, base).value;
      var rest := ReadSections(data, base + 40, count - 1).value;
      if s :| ReadSection(data, base + 40 * count) == Ok(s) {
        assert [first] + (rest + [s]) == [first] + rest + [s];
      }
    } else if ReadSection(data, base).Ok? {
      assert [ReadSection(data, base).value] + [] == [] + [ReadSection(data, base).value];
    }
  }

  method ParsePeLayout(data: seq<Byte>) returns (r: Result<Layout, PeError>)
    ensures r == ParseLayout(data)
  {
    var headers := ParseHeaders(data);
    if headers.Err? {
      return Err(headers.error);
    }
    var (layout, tableOff, count) := headers.value;
    if tableOff + count * 40 > |data| {
      return Err(TruncatedSectionTable);
    }
    var sections: seq<Section> := [];
    for i := 0 to count
      invariant ReadSections(data, tableOff, i) == Ok(sections)
    {
      var base := tableOff + i * 40;
      assert base + 40 <= |data|;
      ReadSectionsAppend(data, tableOff, i);
      sections := sections + [Section(At32(data, base + 12), At32(data, base + 8),
                                      At32(data, base + 20), At32(data, base + 16))];
    }
    return Ok(layout.(sections := sections));
  }

  // ---------- RVA mapping ----------

  function SaturatingAdd(a: nat, b: nat): nat {
    if a + b > U32_MAX then U32_MAX else a + b
  }

  function Max(a: nat, b: nat): nat {
    if a < b then b else a
  }

  /** The RVAs a section covers: up to the larger of its two sizes, cut off at the top of
      the 32-bit range. */
  predicate Covers(s: Section, rva: nat) {
    s.virtualAddress <= rva < SaturatingAdd(s.virtualAddress, Max(s.virtualSize, s.rawDataSize))
  }

  /** `rva_to_offset`: the first covering section decides, even when its offset overflows. */
  function RvaToOffset(rva: nat, sections: seq<Section>): Option<nat> {
    if sections == [] then None
    else if Covers(sections[0], rva) then
      var off := sections[0].rawDataPtr + (rva - sections[0].virtualAddress);
      if off <= U32_MAX then Some(off) else None
    else RvaToOffset(rva, sections[1..])
  }

  // ---------- strings ----------

  function AsText(bytes: seq<Byte>): string {
    if bytes == [] then [] else [bytes[0] as char] + AsText(bytes[1..])
  }

  predicate Continuation(b: Byte) {
    0x80 <= b < 0xC0
  }

  /** The length of the well-formed UTF-8 sequence at the front, or 0 if there is none. */
  function Utf8Lead(s: seq<Byte>): (n: nat)
    requires s != []
    ensures n <= |s|
  {
    if s[0] < 0x80 then 1
    else if 0xC2 <= s[0] < 0xE0 && |s| >= 2 && Continuation(s[1]) then 2
    else if 0xE0 <= s[0] < 0xF0 && |s| >= 3 && Continuation(s[1]) && Continuation(s[2])
         && (s[0] == 0xE0 ==> s[1] >= 0xA0) && (s[0] == 0xED ==> s[1] < 0xA0) then 3
    else if 0xF0 <= s[0] < 0xF5 && |s| >= 4 && Continuation(s[1]) && Continuation(s[2]) && Continuation(s[3])
         && (s[0] == 0xF0 ==> s[1] >= 0x90) && (s[0] == 0xF4 ==> s[1] < 0x90) then 4
    else 0
  }

  predicate ValidUtf8(s: seq<Byte>) {
    s == [] || (Utf8Lead(s) > 0 && ValidUtf8(s[Utf8Lead(s)..]))
  }

  /** The first index from `i` on whose byte is zero, or the length. */
  function NulAt(data: seq<Byte>, i: nat): (end: nat)
    requires i <= |data|
    ensures i <= end <= |data|
    ensures forall k :: i <= k < end ==> data[k] != 0
    ensures end < |data| ==> data[end] == 0
    decreases |data| - i
  {
    if i < |data| && data[i] != 0 then NulAt(data, i + 1) else i
  }

  /** `read_c_string`, as the bytes of the string. */
  function CString(data: seq<Byte>, off: nat): Result<seq<Byte>, PeError> {
    if off >= |data| then Err(BadStringOffset)
    else
      var end := NulAt(data, off);
      if end == |data| then Err(UnterminatedString)
      else if ValidUtf8(data[off..end]) then Ok(data[off..end])
      else Err(NotUtf8)
  }

  method ReadCString(data: seq<Byte>, off: nat) returns (r: Result<seq<Byte>, PeError>)
    ensures r == CString(data, off)
  {
    if off >= |data| {
      return Err(BadStringOffset);
    }
    var end := off;
    while end < |data| && data[end] != 0
      invariant off <= end <= |data|
      invariant NulAt(data, end) == NulAt(data, off)
    {
      end := end + 1;
    }
    if end == |data| {
      return Err(UnterminatedString);
    }
    return if ValidUtf8(data[off..end]) then Ok(data[off..end]) else Err(NotUtf8);
  }

  // ---------- the ordered set of names ----------

  predicate StrictlyIncreasing(s: seq<string>) {
    forall i, j :: 0 <= i < j < |s| ==> LexLess(s[i], s[j])
  }

  /** `BTreeSet::insert` on the list of the set's elements in order. */
  function Insert(s: seq<string>, x: string): seq<string> {
    if s == [] || LexLess(x, s[0]) then [x] + s
    else if x == s[0] then s
    else [s[0]] + Insert(s[1..], x)
  }

  lemma {:induction false} InsertMeaning(s: seq<string>, x: string)
    requires StrictlyIncreasing(s)
    ensures StrictlyIncreasing(Insert(s, x))
    ensures forall y :: y in Insert(s, x) <==> y in s || y == x
  {
    if s != [] {
      if LexLess(x, s[0]) {
        forall j | 0 <= j < |s| ensures LexLess(x, s[j]) {
          if j > 0 { LexTransitive(x, s[0], s[j]); }
        }
      } else if x != s[0] {
        LexTotal(x, s[0]);
        var rest := Insert(s[1..], x);
        InsertMeaning(s[1..], x);
        forall j | 0 <= j < |rest| ensures LexLess(s[0], rest[j]) {
          assert rest[j] in rest;
          if rest[j] != x {
            var i :| 0 <= i < |s[1..]| && s[1..][i] == rest[j];
            assert s[i + 1] == rest[j];
          }
        }
      }
    }
  }

  lemma EmptyOrInhabited(s: seq<string>)
    ensures s == [] || exists x :: x in s
  {
    if s != [] { assert s[0] in s; }
  }

  lemma {:induction false} OrderedListUnique(a: seq<string>, b: seq<string>)
    requires StrictlyIncreasing(a) && StrictlyIncreasing(b)
    requires forall x :: x in a <==> x in b
    ensures a == b
  {
    if a != [] {
      assert a[0] in b;
      if a[0] != b[0] {
        var i :| 0 <= i < |b| && b[i] == a[0];
        assert b[0] in a;
        var j :| 0 <= j < |a| && a[j] == b[0];
        LexAsymmetric(a[0], b[0]);
      }
      LexIrreflexive(a[0]);
      forall x | x in a[1..] ensures x in b[1..] {
        var j :| 0 <= j < |a[1..]| && a[1..][j] == x;
        assert LexLess(a[0], a[j + 1]);
        assert x in b && x != b[0];
      }
      forall x | x in b[1..] ensures x in a[1..] {
        var j :| 0 <= j < |b[1..]| && b[1..][j] == x;
        assert LexLess(b[0], b[j + 1]);
        assert x in a && x != a[0];
      }
      OrderedListUnique(a[1..], b[1..]);
    } else {
      EmptyOrInhabited(b);
    }
  }

  // ---------- the import descriptor table ----------

  predicate IsNullDescriptor(data: seq<Byte>, off: nat)
    requires off + 20 <= |data|
  {
    && At32(data, off) == 0 && At32(data, off + 4) == 0 && At32(data, off + 8) == 0
    && At32(data, off + 12) == 0 && At32(data, off + 16) == 0
  }

  /** The name one descriptor refers to. */
  function DescriptorName(data: seq<Byte>, sections: seq<Section>, off: nat): Result<seq<Byte>, PeError>
    requires off + 20 <= |data|
  {
    match RvaToOffset(At32(data, off + 12), sections)
    case None => Err(BadNameRva)
    case Some(nameOff) => CString(data, nameOff)
  }

  /** The names still to be added to `acc` from the descriptor at `off` on. */
  function Collect(data: seq<Byte>, sections: seq<Section>, off: nat, acc: seq<string>): Result<seq<string>, PeError>
    decreases |data| - off
  {
    if off + 20 > |data| then Err(TruncatedDescriptors)
    else if IsNullDescriptor(data, off) then Ok(acc)
    else
      var name :- DescriptorName(data, sections, off);
      Collect(data, sections, off + 20, Insert(acc, Lower(AsText(name))))
  }

  /** `direct_imports_from_bytes` */
  function DirectImports(data: seq<Byte>): Result<seq<string>, PeError> {
    var layout :- ParseLayout(data);
    if layout.importRva == 0 then Ok([])
    else
      match RvaToOffset(layout.importRva, layout.sections)
      case None => Err(BadImportTableRva)
      case Some(off) => Collect(data, layout.sections, off, [])
  }

  method DirectImportsFromBytes(data: seq<Byte>) returns (r: Result<seq<string>, PeError>)
    ensures r == DirectImports(data)
  {
    var parsed := ParsePeLayout(data);
    if parsed.Err? {
      return Err(parsed.error);
    }
    var pe := parsed.value;
    if pe.importRva == 0 {
      return Ok([]);
    }
    var imports: seq<string> := [];
    var table := RvaToOffset(pe.importRva, pe.sections);
    if table.None? {
      return Err(BadImportTableRva);
    }
    var off := table.value;
    while true
      invariant DirectImports(data) == Collect(data, pe.sections, off, imports)
      decreases |data| - off
    {
      if off + 20 > |data| {
        return Err(TruncatedDescriptors);
      }
      if IsNullDescriptor(data, off) {
        break;
      }
      var nameOff := RvaToOffset(At32(data, off + 12), pe.sections);
      if nameOff.None? {
        return Err(BadNameRva);
      }
      var name := ReadCString(data, nameOff.value);
      if name.Err? {
        return Err(name.error);
      }
      imports := Insert(imports, Lower(AsText(name.value)));
      off := off + 20;
    }
    return Ok(imports);
  }

  // ---------- the manifest resource ----------

  const RT_MANIFEST: nat := 24

  /** The target of a directory entry, relative to the resource section. */
  function EntryTarget(rsrcOff: nat, offsetToData: nat): nat {
    rsrcOff + offsetToData % 0x8000_0000
  }

  /** The first of the `count` entries at `off` that matches: with an ID, one that carries
      that ID (named entries have the high bit set and never match); without, any. */
  function FindEntry(data: seq<Byte>, rsrcOff: nat, off: nat, count: nat, id: Option<nat>): Option<nat>
    decreases count
  {
    if count == 0 || off + 8 > |data| then None
    else
      var nameOrId := At32(data, off);
      if id.None? || (nameOrId < 0x8000_0000 && nameOrId == id.value)
      then Some(EntryTarget(rsrcOff, At32(data, off + 4)))
      else FindEntry(data, rsrcOff, off + 8, count - 1, id)
  }

  /** The entry at index `k` is there and matches. */
  predicate EntryMatches(data: seq<Byte>, off: nat, k: nat, id: Option<nat>) {
    off + 8 * k + 8 <= |data|
    && (id.None? || (At32(data, off + 8 * k) < 0x8000_0000 && At32(data, off + 8 * k) == id.value))
  }

  ghost predicate FirstMatch(data: seq<Byte>, off: nat, k: nat, id: Option<nat>) {
    EntryMatches(data, off, k, id) && forall j: nat :: j < k ==> !EntryMatches(data, off, j, id)
  }

  lemma EntryShifts(data: seq<Byte>, off: nat, k: nat, id: Option<nat>)
    ensures EntryMatches(data, off + 8, k, id) <==> EntryMatches(data, off, k + 1, id)
  {
    assert off + 8 + 8 * k == off + 8 * (k + 1);
  }

  lemma FirstMatchShifts(data: seq<Byte>, off: nat, k: nat, id: Option<nat>)
    requires !EntryMatches(data, off, 0, id) && FirstMatch(data, off + 8, k, id)
    ensures FirstMatch(data, off, k + 1, id)
  {
    EntryShifts(data, off, k, id);
    forall j: nat | j < k + 1 ensures !EntryMatches(data, off, j, id) {
      if j > 0 { EntryShifts(data, off, j - 1, id); }
    }
  }

  /** The entry found is the first of the `count` that matches, and its target is the answer. */
  lemma {:induction false} FindEntryMeaning(data: seq<Byte>, rsrcOff: nat, off: nat, count: nat, id: Option<nat>)
    ensures var r := FindEntry(data, rsrcOff, off, count, id);
            && (r.None? ==> forall k: nat :: k < count ==> !EntryMatches(data, off, k, id))
            && (r.Some? ==> exists k: nat :: k < count && FirstMatch(data, off, k, id)
                              && r.value == EntryTarget(rsrcOff, At32(data, off + 8 * k + 4)))
    decreases count
  {
    if count > 0 && off + 8 <= |data| {
      if EntryMatches(data, off, 0, id) {
        assert FirstMatch(data, off, 0, id);
      } else {
        FindEntryMeaning(data, rsrcOff, off + 8, count - 1, id);
        var r := FindEntry(data, rsrcOff, off + 8, count - 1, id);
        if r.Some? {
          var k: nat :| k < count - 1 && FirstMatch(data, off + 8, k, id)
                        && r.value == EntryTarget(rsrcOff, At32(data, off + 8 + 8 * k + 4));
          FirstMatchShifts(data, off, k, id);
          assert off + 8 + 8 * k + 4 == off + 8 * (k + 1) + 4;
        } else {
          forall k: nat | k < count ensures !EntryMatches(data, off, k, id) {
            if k > 0 { EntryShifts(data, off, k - 1, id); }
          }
        }
      }
    }
  }

  /** `find_resource_entry` */
  function FindResourceEntry(data: seq<Byte>, rsrcOff: nat, dirOff: nat, id: Option<nat>): Option<nat> {
    if dirOff + 16 > |data| then None
    else FindEntry(data, rsrcOff, dirOff + 16, At16(data, dirOff + 12) + At16(data, dirOff + 14), id)
  }

  /** The answer is the target of the directory's first matching entry, if there is one. */
  ghost predicate IsFirstEntry(data: seq<Byte>, rsrcOff: nat, dirOff: nat, id: Option<nat>, r: Option<nat>) {
    if dirOff + 16 > |data| then r.None?
    else
      var off, count := dirOff + 16, At16(data, dirOff + 12) + At16(data, dirOff + 14);
      && (r.None? ==> forall k: nat :: k < count ==> !EntryMatches(data, off, k, id))
      && (r.Some? ==> exists k: nat :: k < count && FirstMatch(data, off, k, id)
                        && r.value == EntryTarget(rsrcOff, At32(data, off + 8 * k + 4)))
  }

  method FindResourceEntryByScan(data: seq<Byte>, rsrcOff: nat, dirOff: nat, id: Option<nat>) returns (r: Option<nat>)
    ensures r == FindResourceEntry(data, rsrcOff, dirOff, id)
    ensures IsFirstEntry(data, rsrcOff, dirOff, id, r)
  {
    if dirOff + 16 <= |data| {
      FindEntryMeaning(data, rsrcOff, dirOff + 16, At16(data, dirOff + 12) + At16(data, dirOff + 14), id);
    }
    var named := ReadU16(data, dirOff + 12);
    var idCount := ReadU16(data, dirOff + 14);
    if named.Err? || idCount.Err? {
      return None;
    }
    var entriesOff := dirOff + 16;
    var total := named.value + idCount.value;
    for i := 0 to total
      invariant FindResourceEntry(data, rsrcOff, dirOff, id)
             == FindEntry(data, rsrcOff, entriesOff + i * 8, total - i, id)
    {
      var entryOff := entriesOff + i * 8;
      var nameOrId := ReadU32(data, entryOff);
      var offsetToData := ReadU32(data, entryOff + 4);
      if nameOrId.Err? || offsetToData.Err? {
        return None;
      }
      var matches := id.None? || (nameOrId.value < 0x8000_0000 && nameOrId.value == id.value);
      if matches {
        return Some(rsrcOff + offsetToData.value % 0x8000_0000);
      }
    }
    return None;
  }

  /** The text of a manifest: UTF-16 code units behind a byte-order mark, or UTF-8 bytes with
      their mark removed. Lossy decoding of malformed text is not part of this model. */
  datatype ManifestText = Utf16(units: seq<nat>) | Utf8(bytes: seq<Byte>)

  function Units(bytes: seq<Byte>): seq<nat> {
    if |bytes| < 2 then [] else [bytes[0] as int + 0x100 * (bytes[1] as int)] + Units(bytes[2..])
  }

  function DecodeManifestText(payload: seq<Byte>): ManifestText {
    if |payload| >= 2 && payload[0] == 0xFF && payload[1] == 0xFE then Utf16(Units(payload[2..]))
    else if |payload| >= 3 && payload[0..3] == [0xEF, 0xBB, 0xBF] then Utf8(payload[3..])
    else Utf8(payload)
  }

  /** The data entry of the first language of the first manifest resource. */
  function ManifestEntry(data: seq<Byte>, rsrcOff: nat): Option<nat> {
    var manifestDir :- FindResourceEntry(data, rsrcOff, rsrcOff, Some(RT_MANIFEST));
    var langDir :- FindResourceEntry(data, rsrcOff, manifestDir, None);
    FindResourceEntry(data, rsrcOff, langDir, None)
  }

  function EntryPayload(data: seq<Byte>, sections: seq<Section>, entryOff: nat): Option<seq<Byte>> {
    if entryOff + 8 > |data| then None
    else
      var payloadOff :- RvaToOffset(At32(data, entryOff), sections);
      var size := At32(data, entryOff + 4);
      if payloadOff + size <= |data| then Some(data[payloadOff..payloadOff + size]) else None
  }

  /** `extract_embedded_manifest_from_bytes`, before decoding. */
  function ManifestPayload(data: seq<Byte>): Option<seq<Byte>> {
    match ParseLayout(data)
    case Err(_) => None
    case Ok(pe) =>
      if pe.resourceRva == 0 then None
      else
        var rsrcOff :- RvaToOffset(pe.resourceRva, pe.sections);
        var entryOff :- ManifestEntry(data, rsrcOff);
        EntryPayload(data, pe.sections, entryOff)
  }

  function EmbeddedManifest(data: seq<Byte>): Option<ManifestText> {
    var payload :- ManifestPayload(data);
    Some(DecodeManifestText(payload))
  }
}
