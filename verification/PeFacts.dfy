/**
 What the PE reader's answers mean, for every byte string: an import list is the ordered
 set of the names the descriptor table refers to, and whatever parses from a prefix of a
 file is what the whole file says.
 */
module PeFacts {
  import opened Wrappers
  import opened Text
  import opened Pe

  // ---------- the import list ----------

  /** `names` are what the consecutive non-null descriptors from `off` on refer to, and a
      null descriptor follows them, all of it inside the file. */
  ghost predicate DescriptorTable(data: seq<Byte>, sections: seq<Section>, off: nat, names: seq<seq<Byte>>)
    decreases names
  {
    && off + 20 <= |data|
    && if names == [] then IsNullDescriptor(data, off)
       else
         && !IsNullDescriptor(data, off)
         && DescriptorName(data, sections, off) == Ok(names[0])
         && DescriptorTable(data, sections, off + 20, names[1..])
  }

  /** The names as the import list spells them. */
  ghost function Lowered(names: seq<seq<Byte>>): set<string> {
    if names == [] then {} else {Lower(AsText(names[0]))} + Lowered(names[1..])
  }

  ghost predicate OrderedSetOf(list: seq<string>, elements: set<string>) {
    StrictlyIncreasing(list) && forall x :: x in list <==> x in elements
  }

  lemma {:induction false} TableIsCollected(
    data: seq<Byte>, sections: seq<Section>, off: nat, names: seq<seq<Byte>>, acc: seq<string>, elements: set<string>)
    requires DescriptorTable(data, sections, off, names) && OrderedSetOf(acc, elements)
    ensures Collect(data, sections, off, acc).Ok?
    ensures OrderedSetOf(Collect(data, sections, off, acc).value, elements + Lowered(names))
    decreases names
  {
    if names != [] {
      var x := Lower(AsText(names[0]));
      InsertMeaning(acc, x);
      TableIsCollected(data, sections, off + 20, names[1..], Insert(acc, x), elements + {x});
      assert elements + {x} + Lowered(names[1..]) == elements + Lowered(names);
    }
  }

  lemma {:induction false} CollectedIsTable(data: seq<Byte>, sections: seq<Section>, off: nat, acc: seq<string>)
    returns (names: seq<seq<Byte>>)
    requires Collect(data, sections, off, acc).Ok?
    ensures DescriptorTable(data, sections, off, names)
    decreases |data| - off
  {
    if IsNullDescriptor(data, off) {
      names := [];
    } else {
      var name := DescriptorName(data, sections, off).value;
      var rest := CollectedIsTable(data, sections, off + 20, Insert(acc, Lower(AsText(name))));
      names := [name] + rest;
      assert names[1..] == rest;
    }
  }

  /** A well-formed descriptor table is read as the strictly increasing list of its
      lowercased names. */
  lemma TableGivesImports(data: seq<Byte>, off: nat, names: seq<seq<Byte>>)
    requires ParseLayout(data).Ok?
    requires var pe := ParseLayout(data).value;
             && pe.importRva != 0 && RvaToOffset(pe.importRva, pe.sections) == Some(off)
             && DescriptorTable(data, pe.sections, off, names)
    ensures DirectImports(data).Ok? && OrderedSetOf(DirectImports(data).value, Lowered(names))
  {
    TableIsCollected(data, ParseLayout(data).value.sections, off, names, [], {});
    assert {} + Lowered(names) == Lowered(names);
  }

  /** Conversely, every import list that is read comes from such a table, or from an image
      that has none. */
  lemma ImportsComeFromTable(data: seq<Byte>) returns (off: nat, names: seq<seq<Byte>>)
    requires DirectImports(data).Ok?
    ensures var pe := ParseLayout(data).value;
            && ParseLayout(data).Ok?
            && (pe.importRva == 0 ==> names == [])
            && (pe.importRva != 0 ==>
                  RvaToOffset(pe.importRva, pe.sections) == Some(off) && DescriptorTable(data, pe.sections, off, names))
    ensures OrderedSetOf(DirectImports(data).value, Lowered(names))
  {
    var pe := ParseLayout(data).value;
    off, names := 0, [];
    if pe.importRva != 0 {
      off := RvaToOffset(pe.importRva, pe.sections).value;
      names := CollectedIsTable(data, pe.sections, off, []);
      TableGivesImports(data, off, names);
    }
  }

  // ---------- prefix stability ----------

  lemma {:induction false} NulInPrefix(prefix: seq<Byte>, data: seq<Byte>, off: nat)
    requires prefix <= data && off <= |prefix| && NulAt(prefix, off) < |prefix|
    ensures NulAt(data, off) == NulAt(prefix, off)
    decreases |prefix| - off
  {
    if off < |prefix| && prefix[off] != 0 { NulInPrefix(prefix, data, off + 1); }
  }

  lemma CStringInPrefix(prefix: seq<Byte>, data: seq<Byte>, off: nat)
    requires prefix <= data && CString(prefix, off).Ok?
    ensures CString(data, off) == CString(prefix, off)
  {
    NulInPrefix(prefix, data, off);
    assert prefix[off..NulAt(prefix, off)] == data[off..NulAt(prefix, off)];
  }

  lemma {:induction false} SectionsInPrefix(prefix: seq<Byte>, data: seq<Byte>, base: nat, count: nat)
    requires prefix <= data && ReadSections(prefix, base, count).Ok?
    ensures ReadSections(data, base, count) == ReadSections(prefix, base, count)
    decreases count
  {
    if count > 0 { SectionsInPrefix(prefix, data, base + 40, count - 1); }
  }

  lemma HeadersInPrefix(prefix: seq<Byte>, data: seq<Byte>)
    requires prefix <= data && ParseHeaders(prefix).Ok?
    ensures ParseHeaders(data) == ParseHeaders(prefix)
  {
    assert data[0..2] == prefix[0..2];
    var peOffset := At32(prefix, 0x3C);
    assert data[peOffset..peOffset + 4] == prefix[peOffset..peOffset + 4];
  }

  /** A layout parsed from a prefix of the file is the layout of the file. */
  lemma LayoutIsPrefixStable(prefix: seq<Byte>, data: seq<Byte>)
    requires prefix <= data && ParseLayout(prefix).Ok?
    ensures ParseLayout(data) == ParseLayout(prefix)
  {
    HeadersInPrefix(prefix, data);
    var (headers, tableOff, count) := ParseHeaders(prefix).value;
    SectionsInPrefix(prefix, data, tableOff, count);
  }

  /** Everything before the section table lies in a prefix that reaches it. */
  lemma HeadersReachPrefix(prefix: seq<Byte>, data: seq<Byte>)
    requires prefix <= data && ParseHeaders(data).Ok? && ParseHeaders(data).value.1 <= |prefix|
    ensures ParseHeaders(prefix) == ParseHeaders(data)
  {
    assert data[0..2] == prefix[0..2];
    var peOffset := At32(data, 0x3C);
    assert data[peOffset..peOffset + 4] == prefix[peOffset..peOffset + 4];
  }

  lemma {:induction false} SectionsInBounds(data: seq<Byte>, base: nat, count: nat)
    requires base + 40 * count <= |data|
    ensures ReadSections(data, base, count).Ok?
    decreases count
  {
    if count > 0 { SectionsInBounds(data, base + 40, count - 1); }
  }

  /** The COM resolver reads only the first mebibyte of a server: an image parses from a prefix
      exactly when the prefix holds its whole section table. One that ends later is called a bad
      image. */
  lemma PrefixParsesExactlyWhen(prefix: seq<Byte>, data: seq<Byte>)
    requires prefix <= data && ParseLayout(data).Ok?
    ensures var (_, tableOff, count) := ParseHeaders(data).value;
            ParseLayout(prefix).Ok? <==> tableOff + 40 * count <= |prefix|
  {
    var (_, tableOff, count) := ParseHeaders(data).value;
    if ParseLayout(prefix).Ok? {
      HeadersInPrefix(prefix, data);
    }
    if tableOff + 40 * count <= |prefix| {
      HeadersReachPrefix(prefix, data);
      SectionsInBounds(prefix, tableOff, count);
    }
  }

  lemma NameInPrefix(prefix: seq<Byte>, data: seq<Byte>, sections: seq<Section>, off: nat)
    requires prefix <= data && off + 20 <= |prefix| && DescriptorName(prefix, sections, off).Ok?
    ensures DescriptorName(data, sections, off) == DescriptorName(prefix, sections, off)
  {
    CStringInPrefix(prefix, data, RvaToOffset(At32(prefix, off + 12), sections).value);
  }

  lemma NullInPrefix(prefix: seq<Byte>, data: seq<Byte>, off: nat)
    requires prefix <= data && off + 20 <= |prefix|
    ensures IsNullDescriptor(data, off) <==> IsNullDescriptor(prefix, off)
  {
  }

  lemma {:induction false} CollectInPrefix(
    prefix: seq<Byte>, data: seq<Byte>, sections: seq<Section>, off: nat, acc: seq<string>)
    requires prefix <= data && Collect(prefix, sections, off, acc).Ok?
    ensures Collect(data, sections, off, acc) == Collect(prefix, sections, off, acc)
    decreases |prefix| - off
  {
    NullInPrefix(prefix, data, off);
    if !IsNullDescriptor(prefix, off) {
      NameInPrefix(prefix, data, sections, off);
      var name := DescriptorName(prefix, sections, off).value;
      CollectInPrefix(prefix, data, sections, off + 20, Insert(acc, Lower(AsText(name))));
    }
  }

  /** So is an import list. */
  lemma ImportsArePrefixStable(prefix: seq<Byte>, data: seq<Byte>)
    requires prefix <= data && DirectImports(prefix).Ok?
    ensures DirectImports(data) == DirectImports(prefix)
  {
    LayoutIsPrefixStable(prefix, data);
    var pe := ParseLayout(prefix).value;
    if pe.importRva != 0 {
      CollectInPrefix(prefix, data, pe.sections, RvaToOffset(pe.importRva, pe.sections).value, []);
    }
  }

  lemma {:induction false} EntryInPrefix(
    prefix: seq<Byte>, data: seq<Byte>, rsrcOff: nat, off: nat, count: nat, id: Option<nat>)
    requires prefix <= data && FindEntry(prefix, rsrcOff, off, count, id).Some?
    ensures FindEntry(data, rsrcOff, off, count, id) == FindEntry(prefix, rsrcOff, off, count, id)
    decreases count
  {
    if !(id.None? || (At32(prefix, off) < 0x8000_0000 && At32(prefix, off) == id.value)) {
      EntryInPrefix(prefix, data, rsrcOff, off + 8, count - 1, id);
    }
  }

  lemma ResourceEntryInPrefix(prefix: seq<Byte>, data: seq<Byte>, rsrcOff: nat, dirOff: nat, id: Option<nat>)
    requires prefix <= data && FindResourceEntry(prefix, rsrcOff, dirOff, id).Some?
    ensures FindResourceEntry(data, rsrcOff, dirOff, id) == FindResourceEntry(prefix, rsrcOff, dirOff, id)
  {
    EntryInPrefix(prefix, data, rsrcOff, dirOff + 16, At16(prefix, dirOff + 12) + At16(prefix, dirOff + 14), id);
  }

  lemma ManifestEntryInPrefix(prefix: seq<Byte>, data: seq<Byte>, rsrcOff: nat)
    requires prefix <= data && ManifestEntry(prefix, rsrcOff).Some?
    ensures ManifestEntry(data, rsrcOff) == ManifestEntry(prefix, rsrcOff)
  {
    var manifestDir := FindResourceEntry(prefix, rsrcOff, rsrcOff, Some(RT_MANIFEST)).value;
    var langDir := FindResourceEntry(prefix, rsrcOff, manifestDir, None).value;
    ResourceEntryInPrefix(prefix, data, rsrcOff, rsrcOff, Some(RT_MANIFEST));
    ResourceEntryInPrefix(prefix, data, rsrcOff, manifestDir, None);
    ResourceEntryInPrefix(prefix, data, rsrcOff, langDir, None);
  }

  lemma PayloadInPrefix(prefix: seq<Byte>, data: seq<Byte>, sections: seq<Section>, entryOff: nat)
    requires prefix <= data && EntryPayload(prefix, sections, entryOff).Some?
    ensures EntryPayload(data, sections, entryOff) == EntryPayload(prefix, sections, entryOff)
  {
    var payloadOff := RvaToOffset(At32(prefix, entryOff), sections).value;
    var size := At32(prefix, entryOff + 4);
    assert prefix[payloadOff..payloadOff + size] == data[payloadOff..payloadOff + size];
  }

  /** And so is an embedded manifest. */
  lemma ManifestIsPrefixStable(prefix: seq<Byte>, data: seq<Byte>)
    requires prefix <= data
    ensures ManifestPayload(prefix).Some? ==> ManifestPayload(data) == ManifestPayload(prefix)
  {
    if ManifestPayload(prefix).Some? {
      LayoutIsPrefixStable(prefix, data);
      var pe := ParseLayout(prefix).value;
      var rsrcOff := RvaToOffset(pe.resourceRva, pe.sections).value;
      ManifestEntryInPrefix(prefix, data, rsrcOff);
      PayloadInPrefix(prefix, data, pe.sections, ManifestEntry(prefix, rsrcOff).value);
    }
  }
}
