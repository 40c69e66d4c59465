/**
 Class declarations: the server each is scoped to, and the manifest round trip.
 */
module ManifestScope {
  import opened Wrappers
  import opened Text
  import opened Manifest
  import opened ManifestFacts

  // ---------- the enclosing file ----------

  predicate IsFileTag(tag: Tag) {
    tag.name == "file" || tag.name == "/file"
  }

  predicate OpensFile(tag: Tag) {
    tag.name == "file" && !tag.selfClosing
  }

  function ScopeAfter(after: (Option<string>, Tag) -> Option<string>, file: Option<string>, tags: seq<Tag>)
    : Option<string>
    decreases |tags|
  {
    if tags == [] then file else ScopeAfter(after, after(file, tags[0]), tags[1..])
  }

  function FileAfterAll(file: Option<string>, tags: seq<Tag>): Option<string> {
    ScopeAfter(FileAfter, file, tags)
  }

  /** `name` is that of the last open file tag, which nothing has closed or replaced since. */
  ghost predicate IsOpenFile(tags: seq<Tag>, name: string) {
    exists j :: 0 <= j < |tags| && OpensFile(tags[j]) && AttrValue(tags[j].attrs, "name") == Some(name)
                && forall k :: j < k < |tags| ==> !IsFileTag(tags[k])
  }

  lemma {:induction false} ScopeAfterConcat(
    after: (Option<string>, Tag) -> Option<string>, file: Option<string>, a: seq<Tag>, b: seq<Tag>)
    ensures ScopeAfter(after, file, a + b) == ScopeAfter(after, ScopeAfter(after, file, a), b)
    decreases |a|
  {
    if a == [] {
      assert a + b == b;
    } else {
      assert (a + b)[1..] == a[1..] + b;
      ScopeAfterConcat(after, after(file, a[0]), a[1..], b);
    }
  }

  lemma FileAfterAllConcat(file: Option<string>, a: seq<Tag>, b: seq<Tag>)
    ensures FileAfterAll(file, a + b) == FileAfterAll(FileAfterAll(file, a), b)
  {
    ScopeAfterConcat(FileAfter, file, a, b);
  }

  lemma FileAfterPush(tags: seq<Tag>, tag: Tag)
    ensures FileAfterAll(None, tags + [tag]) == FileAfter(FileAfterAll(None, tags), tag)
  {
    FileAfterAllConcat(None, tags, [tag]);
    ScopeAfterOne(FileAfter, FileAfterAll(None, tags), tag);
  }

  lemma ScopeAfterOne(after: (Option<string>, Tag) -> Option<string>, file: Option<string>, tag: Tag)
    ensures ScopeAfter(after, file, [tag]) == after(file, tag)
  {
    assert [tag][1..] == [];
  }

  lemma OpenFilePush(tags: seq<Tag>, last: Tag, name: string)
    ensures IsOpenFile(tags + [last], name) <==>
            if IsFileTag(last) then OpensFile(last) && AttrValue(last.attrs, "name") == Some(name)
            else IsOpenFile(tags, name)
  {
    var longer := tags + [last];
    assert longer[|tags|] == last;
    assert forall k :: 0 <= k < |tags| ==> longer[k] == tags[k];
  }

  /** The scope the scanner carries is the last open, not self-closing file tag. */
  lemma {:induction false} ScopeIsLastOpenFile(tags: seq<Tag>, name: string)
    ensures FileAfterAll(None, tags) == Some(name) <==> IsOpenFile(tags, name)
    decreases |tags|
  {
    if tags != [] {
      var init, last := tags[..|tags| - 1], tags[|tags| - 1];
      assert tags == init + [last];
      FileAfterPush(init, last);
      ScopeIsLastOpenFile(init, name);
      OpenFilePush(init, last, name);
    }
  }

  lemma {:induction false} CollectConcat(
    declared: (Option<string>, Tag) -> seq<ManifestComClass>, after: (Option<string>, Tag) -> Option<string>,
    a: seq<Tag>, b: seq<Tag>, file: Option<string>)
    ensures Collect(declared, after, a + b, file)
            == Collect(declared, after, a, file) + Collect(declared, after, b, ScopeAfter(after, file, a))
    decreases |a|
  {
    if a == [] {
      assert a + b == b;
    } else {
      var next, first := after(file, a[0]), declared(file, a[0]);
      assert (a + b)[0] == a[0] && (a + b)[1..] == a[1..] + b;
      CollectConcat(declared, after, a[1..], b, next);
      var rest := Collect(declared, after, a[1..], next);
      var more := Collect(declared, after, b, ScopeAfter(after, next, a[1..]));
      assert first + (rest + more) == first + rest + more;
    }
  }

  lemma ClassesConcat(a: seq<Tag>, b: seq<Tag>, file: Option<string>)
    ensures ClassesFrom(a + b, file) == ClassesFrom(a, file) + ClassesFrom(b, FileAfterAll(file, a))
  {
    CollectConcat(Declared, FileAfter, a, b, file);
  }

  /** Only a comClass tag with a clsid declares anything, and it declares one class. */
  lemma DeclaredMeaning(file: Option<string>, tag: Tag)
    ensures var clsid := AttrValue(tag.attrs, "clsid");
            if tag.name == "comClass" && clsid.Some?
            then |Declared(file, tag)| == 1 && Declared(file, tag)[0].clsid == clsid.value
                 && Declared(file, tag)[0].serverDll == file
            else Declared(file, tag) == []
  {
  }

  /** What a tag anywhere in the text declares stands at its place among the classes, and its
      server is the last open file before the tag, if any. */
  lemma ServerIsLastOpenFile(before: seq<Tag>, tag: Tag, after: seq<Tag>)
    ensures var scope := FileAfterAll(None, before);
            && ClassesFrom(before + ([tag] + after), None) ==
               ClassesFrom(before, None) + Declared(scope, tag) + ClassesFrom(after, FileAfterAll(None, before + [tag]))
            && (forall c, name :: c in Declared(scope, tag) ==>
                  tag.name == "comClass" && (c.serverDll == Some(name) <==> IsOpenFile(before, name)))
  {
    var scope := FileAfterAll(None, before);
    ClassesConcat(before, [tag] + after, None);
    TagAdvances(ClassesFrom(before, None), tag, after, scope);
    FileAfterPush(before, tag);
    DeclaredMeaning(scope, tag);
    forall c, name | c in Declared(scope, tag) ensures c.serverDll == Some(name) <==> IsOpenFile(before, name) {
      ScopeIsLastOpenFile(before, name);
    }
  }

  /** `tag`, standing after `before`, is a comClass tag that declares `c`. */
  ghost predicate IsDeclaration(before: seq<Tag>, tag: Tag, c: ManifestComClass) {
    && tag.name == "comClass"
    && AttrValue(tag.attrs, "clsid") == Some(c.clsid)
    && AttrValue(tag.attrs, "progid") == c.progid
    && AttrValue(tag.attrs, "threadingModel") == c.threadingModel
    && forall name :: c.serverDll == Some(name) <==> IsOpenFile(before, name)
  }

  lemma ClassOfMeaning(file: Option<string>, tag: Tag, c: ManifestComClass)
    ensures c in Declared(file, tag) <==>
            && tag.name == "comClass"
            && AttrValue(tag.attrs, "clsid") == Some(c.clsid)
            && AttrValue(tag.attrs, "progid") == c.progid
            && AttrValue(tag.attrs, "threadingModel") == c.threadingModel
            && c.serverDll == file
  {
  }

  lemma DeclaredInScope(before: seq<Tag>, tag: Tag, c: ManifestComClass)
    ensures c in Declared(FileAfterAll(None, before), tag) <==> IsDeclaration(before, tag, c)
  {
    var scope := FileAfterAll(None, before);
    forall name ensures scope == Some(name) <==> IsOpenFile(before, name) {
      ScopeIsLastOpenFile(before, name);
    }
    SameOption(c.serverDll, scope);
    ClassOfMeaning(scope, tag, c);
  }

  lemma SameOption(a: Option<string>, b: Option<string>)
    ensures a == b <==> forall x :: a == Some(x) <==> b == Some(x)
  {
    if forall x :: a == Some(x) <==> b == Some(x) {
      assert a.Some? ==> b == Some(a.value);
      assert b.Some? ==> a == Some(b.value);
    }
  }

  lemma {:induction false} CollectMembers(
    declared: (Option<string>, Tag) -> seq<ManifestComClass>, after: (Option<string>, Tag) -> Option<string>,
    tags: seq<Tag>, file: Option<string>, c: ManifestComClass)
    ensures c in Collect(declared, after, tags, file) <==>
            exists i :: 0 <= i < |tags| && c in declared(ScopeAfter(after, file, tags[..i]), tags[i])
    decreases |tags|
  {
    if tags != [] {
      var n := |tags| - 1;
      var init, last := tags[..n], tags[n];
      assert tags == init + [last];
      CollectMembers(declared, after, init, file, c);
      CollectConcat(declared, after, init, [last], file);
      CollectFront(declared, after, last, [], ScopeAfter(after, file, init));
      assert [last] + [] == [last];
      assert forall i :: 0 <= i < n ==> tags[..i] == init[..i] && tags[i] == init[i];
    }
  }

  /** The classes of a manifest are exactly those of its comClass tags with a clsid, each with the
      last file opened before it and still open as its server. */
  lemma FoundClasses(tags: seq<Tag>, c: ManifestComClass)
    ensures c in ClassesFrom(tags, None) <==> exists i :: 0 <= i < |tags| && IsDeclaration(tags[..i], tags[i], c)
  {
    CollectMembers(Declared, FileAfter, tags, None, c);
    forall i | 0 <= i < |tags|
      ensures c in Declared(FileAfterAll(None, tags[..i]), tags[i]) <==> IsDeclaration(tags[..i], tags[i], c)
    {
      DeclaredInScope(tags[..i], tags[i], c);
    }
  }

  // ---------- what a manifest declares ----------

  datatype ClassDecl = ClassDecl(clsid: string, progid: Option<string>, threadingModel: Option<string>)

  datatype Decl = File(name: string, classes: seq<ClassDecl>) | EmptyFile(name: string) | Loose(class_: ClassDecl)

  function Attr(key: string, value: Option<string>): seq<(string, string)> {
    if value.Some? then [(key, value.value)] else []
  }

  function ClassAttrs(c: ClassDecl): seq<(string, string)> {
    [("clsid", c.clsid)] + (Attr("progid", c.progid) + Attr("threadingModel", c.threadingModel))
  }

  function ClassTag(c: ClassDecl): Tag {
    Tag("comClass", ClassAttrs(c), true)
  }

  function ClassTags(cs: seq<ClassDecl>): seq<Tag> {
    if cs == [] then [] else [ClassTag(cs[0])] + ClassTags(cs[1..])
  }

  function FileTag(name: string, selfClosing: bool): Tag {
    Tag("file", [("name", name)], selfClosing)
  }

  const FILE_END: Tag := Tag("/file", [], false)

  function DeclTags(d: Decl): seq<Tag> {
    match d
    case File(name, classes) => [FileTag(name, false)] + (ClassTags(classes) + [FILE_END])
    case EmptyFile(name) => [FileTag(name, true)]
    case Loose(c) => [ClassTag(c)]
  }

  function DocTags(doc: seq<Decl>): seq<Tag> {
    if doc == [] then [] else DeclTags(doc[0]) + DocTags(doc[1..])
  }

  function Scoped(cs: seq<ClassDecl>, file: Option<string>): seq<ManifestComClass> {
    if cs == [] then []
    else [ManifestComClass(cs[0].clsid, cs[0].progid, cs[0].threadingModel, file)] + Scoped(cs[1..], file)
  }

  function Meant(d: Decl): seq<ManifestComClass> {
    match d
    case File(name, classes) => Scoped(classes, Some(name))
    case EmptyFile(_) => []
    case Loose(c) => Scoped([c], None)
  }

  function Declares(doc: seq<Decl>): seq<ManifestComClass> {
    if doc == [] then [] else Meant(doc[0]) + Declares(doc[1..])
  }

  lemma KeysDiffer()
    ensures !SameIgnoringCase("clsid", "progid") && !SameIgnoringCase("clsid", "threadingModel")
    ensures !SameIgnoringCase("progid", "threadingModel") && !SameIgnoringCase("threadingModel", "progid")
  {
    LowerAt("clsid");
    LowerAt("progid");
    LowerAt("threadingModel");
  }

  lemma AttrThenRest(key: string, value: Option<string>, rest: seq<(string, string)>, name: string)
    requires !SameIgnoringCase(key, name)
    ensures AttrValue(Attr(key, value) + rest, name) == AttrValue(rest, name)
  {
    if value.Some? {
      assert (Attr(key, value) + rest)[1..] == rest;
    } else {
      assert Attr(key, value) + rest == rest;
    }
  }

  lemma AttrFound(key: string, value: Option<string>, rest: seq<(string, string)>)
    requires AttrValue(rest, key).None?
    ensures AttrValue(Attr(key, value) + rest, key) == value
  {
    if value.None? { assert Attr(key, value) + rest == rest; }
  }

  lemma ClassAttrValues(c: ClassDecl)
    ensures AttrValue(ClassAttrs(c), "clsid") == Some(c.clsid)
    ensures AttrValue(ClassAttrs(c), "progid") == c.progid
    ensures AttrValue(ClassAttrs(c), "threadingModel") == c.threadingModel
  {
    KeysDiffer();
    ThreeAttrs("clsid", c.clsid, "progid", c.progid, "threadingModel", c.threadingModel);
  }

  lemma ThreeAttrs(k0: string, v0: string, k1: string, v1: Option<string>, k2: string, v2: Option<string>)
    requires !SameIgnoringCase(k0, k1) && !SameIgnoringCase(k0, k2)
    requires !SameIgnoringCase(k1, k2) && !SameIgnoringCase(k2, k1)
    ensures var attrs := [(k0, v0)] + (Attr(k1, v1) + Attr(k2, v2));
            AttrValue(attrs, k0) == Some(v0) && AttrValue(attrs, k1) == v1 && AttrValue(attrs, k2) == v2
  {
    var last := Attr(k2, v2);
    var rest := Attr(k1, v1) + last;
    assert last + [] == last;
    AttrThenRest(k0, Some(v0), rest, k1);
    AttrThenRest(k0, Some(v0), rest, k2);
    AttrThenRest(k1, v1, last, k2);
    AttrThenRest(k2, v2, [], k1);
    AttrFound(k2, v2, []);
    AttrFound(k1, v1, last);
  }

  lemma ClassTagMeaning(c: ClassDecl, file: Option<string>)
    ensures Declared(file, ClassTag(c)) == Scoped([c], file)
    ensures FileAfter(file, ClassTag(c)) == file
  {
    var tag := ClassTag(c);
    ClassNameMeaning(file, tag);
    ClassAttrValues(c);
    assert ClassOf(file, tag) == Some(ManifestComClass(c.clsid, c.progid, c.threadingModel, file));
    assert Scoped([c], file) == [ManifestComClass(c.clsid, c.progid, c.threadingModel, file)] + [];
  }

  lemma ClassNameMeaning(file: Option<string>, tag: Tag)
    requires tag.name == "comClass"
    ensures FileAfter(file, tag) == file
    ensures var clsid := AttrValue(tag.attrs, "clsid");
            ClassOf(file, tag) ==
            if clsid.None? then None
            else Some(ManifestComClass(clsid.value, AttrValue(tag.attrs, "progid"),
                                       AttrValue(tag.attrs, "threadingModel"), file))
  {
    assert |tag.name| == 8;
  }

  lemma {:induction false} ClassTagsMeaning(cs: seq<ClassDecl>, file: Option<string>)
    ensures ClassesFrom(ClassTags(cs), file) == Scoped(cs, file)
    ensures FileAfterAll(file, ClassTags(cs)) == file
  {
    if cs != [] {
      var tags := ClassTags(cs[1..]);
      ClassTagMeaning(cs[0], file);
      ClassTagsMeaning(cs[1..], file);
      TagAdvances([], ClassTag(cs[0]), tags, file);
      assert ([ClassTag(cs[0])] + tags)[1..] == tags;
      assert [] + ClassesFrom(ClassTags(cs), file) == ClassesFrom(ClassTags(cs), file);
      assert Scoped(cs, file) == [] + Scoped([cs[0]], file) + Scoped(cs[1..], file);
    }
  }

  lemma DeclTagsMeaning(d: Decl)
    ensures ClassesFrom(DeclTags(d), None) == Meant(d)
    ensures FileAfterAll(None, DeclTags(d)) == None
  {
    match d
    case File(name, classes) =>
      FileDeclMeaning(name, classes);
      FileDeclScope(name, classes);
    case EmptyFile(name) =>
      SingleTag(None, FileTag(name, true));
    case Loose(c) =>
      ClassTagMeaning(c, None);
      SingleTag(None, ClassTag(c));
  }

  lemma FileTagMeaning(name: string)
    ensures Declared(None, FileTag(name, false)) == [] && FileAfter(None, FileTag(name, false)) == Some(name)
    ensures Declared(Some(name), FILE_END) == [] && FileAfter(Some(name), FILE_END) == None
  {
  }

  lemma FileDeclScope(name: string, classes: seq<ClassDecl>)
    ensures FileAfterAll(None, [FileTag(name, false)] + (ClassTags(classes) + [FILE_END])) == None
  {
    FileTagMeaning(name);
    FileAfterAllConcat(None, [FileTag(name, false)], ClassTags(classes) + [FILE_END]);
    FileAfterAllConcat(Some(name), ClassTags(classes), [FILE_END]);
    ClassTagsMeaning(classes, Some(name));
    SingleTag(None, FileTag(name, false));
    SingleTag(Some(name), FILE_END);
  }

  lemma SingleTag(file: Option<string>, tag: Tag)
    ensures FileAfterAll(file, [tag]) == FileAfter(file, tag)
    ensures ClassesFrom([tag], file) == Declared(file, tag)
  {
    ScopeAfterOne(FileAfter, file, tag);
    CollectFront(Declared, FileAfter, tag, [], file);
    assert [tag] + [] == [tag] && Declared(file, tag) + [] == Declared(file, tag);
  }

  lemma FileDeclMeaning(name: string, classes: seq<ClassDecl>)
    ensures ClassesFrom([FileTag(name, false)] + (ClassTags(classes) + [FILE_END]), None) == Scoped(classes, Some(name))
  {
    FileTagMeaning(name);
    ClassesConcat([FileTag(name, false)], ClassTags(classes) + [FILE_END], None);
    ClassesConcat(ClassTags(classes), [FILE_END], Some(name));
    ClassTagsMeaning(classes, Some(name));
    SingleTag(None, FileTag(name, false));
    SingleTag(Some(name), FILE_END);
    assert [] + (Scoped(classes, Some(name)) + []) == Scoped(classes, Some(name));
  }

  lemma {:induction false} DocTagsMeaning(doc: seq<Decl>)
    ensures ClassesFrom(DocTags(doc), None) == Declares(doc)
  {
    if doc != [] {
      DeclTagsMeaning(doc[0]);
      DocTagsMeaning(doc[1..]);
      ClassesConcat(DeclTags(doc[0]), DocTags(doc[1..]), None);
    }
  }

  /** The manifest round trip: whatever comments, declarations and character data surround its
      tags, a printed manifest is read back as the classes it declares. */
  lemma ManifestRoundTrip(doc: seq<Decl>, items: seq<Item>)
    requires forall i :: 0 <= i < |items| ==> IsItem(items[i])
    requires TagsIn(items) == DocTags(doc)
    ensures Parse(Print(items)) == Declares(doc)
  {
    ScannerUndoesPrinter(items);
    DocTagsMeaning(doc);
  }

  // ---------- a manifest without anything else ----------

  function TagItems(tags: seq<Tag>): seq<Item> {
    if tags == [] then [] else [TagItem(tags[0])] + TagItems(tags[1..])
  }

  lemma {:induction false} TagItemsMeaning(tags: seq<Tag>)
    ensures TagsIn(TagItems(tags)) == tags && |TagItems(tags)| == |tags|
    ensures forall i :: 0 <= i < |tags| ==> TagItems(tags)[i] == TagItem(tags[i])
  {
    if tags != [] {
      TagItemsMeaning(tags[1..]);
      assert tags == [tags[0]] + tags[1..];
    }
  }

  predicate IsClassDecl(c: ClassDecl) {
    IsValue(c.clsid) && (c.progid.Some? ==> IsValue(c.progid.value))
    && (c.threadingModel.Some? ==> IsValue(c.threadingModel.value))
  }

  predicate IsDecl(d: Decl) {
    match d
    case File(name, classes) => IsValue(name) && forall i :: 0 <= i < |classes| ==> IsClassDecl(classes[i])
    case EmptyFile(name) => IsValue(name)
    case Loose(c) => IsClassDecl(c)
  }

  lemma NamesAreNames()
    ensures IsName("comClass") && IsName("file") && IsName("/file")
    ensures IsKey("clsid") && IsKey("progid") && IsKey("threadingModel") && IsKey("name")
  {
    ShortNames();
    ShortKeys();
    assert IsKey("threadingModel");
  }

  lemma ShortNames()
    ensures IsName("comClass") && IsName("file") && IsName("/file")
  {
  }

  lemma ShortKeys()
    ensures IsKey("clsid") && IsKey("progid") && IsKey("name")
  {
  }

  lemma ClassTagIsPrintable(c: ClassDecl)
    requires IsClassDecl(c)
    ensures IsPrintable(ClassTag(c))
  {
    NamesAreNames();
  }

  lemma {:induction false} ClassTagsArePrintable(cs: seq<ClassDecl>)
    requires forall i :: 0 <= i < |cs| ==> IsClassDecl(cs[i])
    ensures forall i :: 0 <= i < |ClassTags(cs)| ==> IsPrintable(ClassTags(cs)[i])
  {
    if cs != [] {
      ClassTagIsPrintable(cs[0]);
      ClassTagsArePrintable(cs[1..]);
    }
  }

  lemma DeclTagsArePrintable(d: Decl)
    requires IsDecl(d)
    ensures forall i :: 0 <= i < |DeclTags(d)| ==> IsPrintable(DeclTags(d)[i])
  {
    NamesAreNames();
    match d
    case File(name, classes) =>
      ClassTagsArePrintable(classes);
      assert IsPrintable(FileTag(name, false)) && IsPrintable(FILE_END);
    case EmptyFile(name) =>
    case Loose(c) => ClassTagIsPrintable(c);
  }

  lemma {:induction false} DocTagsArePrintable(doc: seq<Decl>)
    requires forall i :: 0 <= i < |doc| ==> IsDecl(doc[i])
    ensures forall i :: 0 <= i < |DocTags(doc)| ==> IsPrintable(DocTags(doc)[i])
  {
    if doc != [] {
      DeclTagsArePrintable(doc[0]);
      DocTagsArePrintable(doc[1..]);
    }
  }

  /** Printed on its own, every manifest with clean values is read back. */
  lemma PlainManifestRoundTrip(doc: seq<Decl>)
    requires forall i :: 0 <= i < |doc| ==> IsDecl(doc[i])
    ensures Parse(Print(TagItems(DocTags(doc)))) == Declares(doc)
  {
    DocTagsArePrintable(doc);
    TagItemsMeaning(DocTags(doc));
    ManifestRoundTrip(doc, TagItems(DocTags(doc)));
  }
}
