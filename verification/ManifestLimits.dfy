/**
 Where the manifest round trip ends: the first '>' ends a tag, even inside a value.
 */
module ManifestLimits {
  import opened Wrappers
  import opened Text
  import opened Manifest
  import opened ManifestFacts
  import opened ManifestScope

  // ---------- what a value cannot hold ----------

  lemma {:induction false} TrimStartClean(s: string, c: char)
    requires c !in s
    ensures c !in TrimStart(s)
  {
    if s != [] && IsWhitespace(s[0]) { TrimStartClean(s[1..], c); }
  }

  lemma {:induction false} TrimEndClean(s: string, c: char)
    requires c !in s
    ensures c !in TrimEnd(s)
  {
    if s != [] && IsWhitespace(s[|s| - 1]) { TrimEndClean(s[..|s| - 1], c); }
  }

  lemma CutClean(s: string, at: char, c: char)
    requires c !in s && CutAt(s, at).Some?
    ensures c !in CutAt(s, at).value.0 && c !in CutAt(s, at).value.1
  {
    CutAtMeaning(s, at);
    var cut := CutAt(s, at).value;
    assert forall x :: x in cut.0 || x in cut.1 ==> x in cut.0 + ([at] + cut.1);
  }

  lemma NextAttrClean(s: string, c: char)
    requires c !in s && NextAttr(s).Some?
    ensures c !in NextAttr(s).value.0.1 && c !in NextAttr(s).value.1
  {
    TrimStartClean(s, c);
    CutClean(TrimStart(s), '=', c);
    var after := CutAt(TrimStart(s), '=').value.1;
    TrimStartClean(after, c);
    var rest := TrimStart(after);
    CutClean(rest[1..], rest[0], c);
  }

  predicate CleanAttrs(attrs: seq<(string, string)>, c: char) {
    forall i :: 0 <= i < |attrs| ==> c !in attrs[i].1
  }

  lemma {:induction false} ParseAttrsClean(s: string, c: char)
    requires c !in s
    ensures CleanAttrs(ParseAttrs(s), c)
    decreases |s|
  {
    if NextAttr(s).Some? {
      NextAttrClean(s, c);
      ParseAttrsClean(NextAttr(s).value.1, c);
    }
  }

  lemma {:induction false} CutNameClean(s: string, c: char)
    requires c !in s
    ensures c !in CutName(s).1
  {
    if s != [] && !IsWhitespace(s[0]) { CutNameClean(s[1..], c); }
  }

  lemma ParseTagClean(body: string, c: char)
    requires c !in body && ParseTag(body).Some?
    ensures CleanAttrs(ParseTag(body).value.attrs, c)
  {
    TrimStartClean(body, c);
    TrimEndClean(TrimStart(body), c);
    var trimmed := Trim(body);
    var raw := if trimmed[|trimmed| - 1] == '/' then TrimEnd(trimmed[..|trimmed| - 1]) else trimmed;
    if trimmed[|trimmed| - 1] == '/' { TrimEndClean(trimmed[..|trimmed| - 1], c); }
    CutNameClean(raw, c);
    ParseAttrsClean(CutName(raw).1, c);
  }

  /** No attribute value the scanner ever yields holds a '>': the first one ends the tag. */
  lemma {:induction false} NoValueHoldsTagEnd(s: string)
    ensures forall i :: 0 <= i < |Tags(s)| ==> CleanAttrs(Tags(s)[i].attrs, '>')
    decreases |s|
  {
    match NextPiece(s)
    case End(_) =>
    case Skip(rest) => NoValueHoldsTagEnd(rest);
    case Emit(tag, rest) =>
      var inside := CutAt(s, '<').value.1;
      CutAtMeaning(inside, '>');
      ParseTagClean(CutAt(inside, '>').value.0, '>');
      NoValueHoldsTagEnd(rest);
  }

  predicate CleanText(v: Option<string>) {
    v.Some? ==> '>' !in v.value
  }

  predicate CleanClass(c: ManifestComClass) {
    '>' !in c.clsid && CleanText(c.progid) && CleanText(c.threadingModel) && CleanText(c.serverDll)
  }

  lemma {:induction false} AttrValueClean(attrs: seq<(string, string)>, name: string)
    requires CleanAttrs(attrs, '>')
    ensures CleanText(AttrValue(attrs, name))
  {
    if attrs != [] { AttrValueClean(attrs[1..], name); }
  }

  lemma FileAfterClean(file: Option<string>, tag: Tag)
    requires CleanText(file) && CleanAttrs(tag.attrs, '>')
    ensures CleanText(FileAfter(file, tag))
  {
    AttrValueClean(tag.attrs, "name");
  }

  lemma DeclaredClean(file: Option<string>, tag: Tag)
    requires CleanText(file) && CleanAttrs(tag.attrs, '>')
    ensures forall c :: c in Declared(file, tag) ==> CleanClass(c)
  {
    AttrValueClean(tag.attrs, "clsid");
    AttrValueClean(tag.attrs, "progid");
    AttrValueClean(tag.attrs, "threadingModel");
  }

  lemma {:induction false} ClassesClean(tags: seq<Tag>, file: Option<string>)
    requires CleanText(file) && forall i :: 0 <= i < |tags| ==> CleanAttrs(tags[i].attrs, '>')
    ensures forall c :: c in ClassesFrom(tags, file) ==> CleanClass(c)
    decreases |tags|
  {
    if tags != [] {
      FileAfterClean(file, tags[0]);
      DeclaredClean(file, tags[0]);
      ClassesClean(tags[1..], FileAfter(file, tags[0]));
    }
  }

  // ---------- a file tag cut short ----------

  predicate QuoteFreeClass(c: ClassDecl) {
    '"' !in c.clsid && (c.progid.Some? ==> '"' !in c.progid.value)
    && (c.threadingModel.Some? ==> '"' !in c.threadingModel.value)
  }

  predicate QuoteFree(d: Decl) {
    match d
    case File(name, classes) => '"' !in name && forall i :: 0 <= i < |classes| ==> QuoteFreeClass(classes[i])
    case EmptyFile(name) => '"' !in name
    case Loose(c) => QuoteFreeClass(c)
  }

  lemma {:induction false} ScopedMembers(cs: seq<ClassDecl>, file: Option<string>)
    ensures |Scoped(cs, file)| == |cs|
    ensures forall i :: 0 <= i < |cs| ==>
              Scoped(cs, file)[i] == ManifestComClass(cs[i].clsid, cs[i].progid, cs[i].threadingModel, file)
  {
    if cs != [] { ScopedMembers(cs[1..], file); }
  }

  /** A file without classes: its name shows nowhere. */
  predicate IsHidden(d: Decl) {
    d.EmptyFile? || (d.File? && d.classes == [])
  }

  /** Such a name may hold a '<' or a '>', but not both. */
  predicate IsDecoy(d: Decl) {
    IsHidden(d) && '<' in d.name && '>' in d.name
  }

  lemma {:induction false} TrimEndAppend(s: string, u: string)
    requires s != [] && !IsWhitespace(s[|s| - 1])
    ensures TrimEnd(s + u) == s + TrimEnd(u)
  {
    if u == [] {
      assert s + u == s && s + TrimEnd(u) == s;
    } else if IsWhitespace(u[|u| - 1]) {
      assert (s + u)[..|s + u| - 1] == s + u[..|u| - 1];
      TrimEndAppend(s, u[..|u| - 1]);
    }
  }

  lemma UnclosedValue(x: string)
    requires '"' !in x
    ensures ParseAttrs([' '] + ("name" + (['='] + (['"'] + x)))) == []
  {
    var k, tail := "name", ['"'] + x;
    var s := k + (['='] + tail);
    assert s[0] == k[0];
    assert TrimStart([' '] + s) == s by { assert ([' '] + s)[1..] == s; }
    assert '=' !in k;
    CutAtFirst(k, '=', tail);
    assert TrimStart(tail) == tail && tail[1..] == x;
    CutAtMeaning(x, '"');
  }

  /** The start of a printed file tag, up to its value. */
  const OPENING: string := "file" + ([' '] + ("name" + (['='] + ['"'])))

  lemma OpeningShape()
    ensures OPENING != [] && OPENING[0] == 'f' && OPENING[|OPENING| - 1] == '"' && '>' !in OPENING
  {
  }

  lemma UnclosedRaw(x: string, selfClosing: bool)
    requires '"' !in x
    ensures TagOf(OPENING + x, selfClosing) == Some(Tag("file", [], selfClosing))
  {
    var name, attrs := "file", [' '] + ("name" + (['='] + (['"'] + x)));
    assert OPENING + x == name + attrs;
    assert NoSpace(name) && ':' !in name && name[0] != '/';
    CutNameStops(name, attrs);
    assert (name + attrs)[0] == name[0];
    UnclosedValue(x);
  }

  /** A file tag that ends inside its value is a file tag without a name. */
  lemma UnclosedFileTag(u: string)
    requires '"' !in u
    ensures exists selfClosing :: ParseTag(OPENING + u) == Some(Tag("file", [], selfClosing))
  {
    var body, v := OPENING + u, TrimEnd(u);
    OpeningShape();
    assert TrimStart(body) == body;
    TrimEndAppend(OPENING, u);
    TrimEndClean(u, '"');
    assert Trim(body) == OPENING + v;
    if v != [] && v[|v| - 1] == '/' {
      var x := v[..|v| - 1];
      assert (OPENING + v)[..|OPENING + v| - 1] == OPENING + x;
      TrimEndAppend(OPENING, x);
      TrimEndClean(x, '"');
      UnclosedRaw(TrimEnd(x), true);
      assert ParseTag(body) == Some(Tag("file", [], true));
    } else {
      UnclosedRaw(v, false);
      assert ParseTag(body) == Some(Tag("file", [], false));
    }
  }

  lemma TagPiece(body: string, junk: string, tag: Tag)
    requires body != [] && body[0] != '!' && body[0] != '?' && '>' !in body && ParseTag(body) == Some(tag)
    ensures NextPiece(['<'] + (body + (['>'] + junk))) == Emit(tag, junk)
  {
    var inside := body + (['>'] + junk);
    assert (['<'] + inside)[1..] == inside && inside[0] == body[0];
    CutAtFirst(body, '>', junk);
  }

  /** A file tag that is cut short after `u`. */
  lemma CutFilePiece(u: string, junk: string)
    requires '"' !in u && '>' !in u
    ensures exists sc :: NextPiece(['<'] + ((OPENING + u) + (['>'] + junk))) == Emit(Tag("file", [], sc), junk)
  {
    OpeningShape();
    UnclosedFileTag(u);
    var sc :| ParseTag(OPENING + u) == Some(Tag("file", [], sc));
    assert (OPENING + u)[0] == OPENING[0];
    TagPiece(OPENING + u, junk, Tag("file", [], sc));
  }

  lemma FileTagText(name: string, selfClosing: bool)
    ensures exists end ::
              '<' !in end && '-' !in end && TagText(FileTag(name, selfClosing)) == ['<'] + (OPENING + (name + end))
  {
    var tag := FileTag(name, selfClosing);
    var end := if selfClosing then ['"', '/', '>'] else ['"', '>'];
    assert tag.attrs[1..] == [];
    assert AttrText(tag.attrs) == [' '] + ("name" + (['='] + (['"'] + (name + (['"'] + [])))));
    assert TagBody(tag) + ['>'] == OPENING + (name + end);
  }

  lemma Regroup(a: string, u: string, v: string, rest: string, end: string)
    ensures a + (u + (v + rest) + end) == (a + u) + (v + (rest + end))
  {
  }

  /** So is a printed file tag whose name holds a '>'; what follows it is read as text. */
  lemma CutFileTagScans(name: string, selfClosing: bool)
    requires '"' !in name && '<' !in name && '>' in name
    ensures AtBoundary(TagText(FileTag(name, selfClosing)))
    ensures exists sc :: Tags(TagText(FileTag(name, selfClosing))) == [Tag("file", [], sc)]
  {
    FileTagText(name, selfClosing);
    var s := TagText(FileTag(name, selfClosing));
    var end :| '<' !in end && '-' !in end && s == ['<'] + (OPENING + (name + end));
    CutAtMeaning(name, '>');
    var (u, rest) := CutAt(name, '>').value;
    CutClean(name, '>', '"');
    CutClean(name, '>', '<');
    Regroup(OPENING, u, ['>'], rest, end);
    CutFilePiece(u, rest + end);
    CutAtMeaning(rest + end, '<');
    var sc :| NextPiece(s) == Emit(Tag("file", [], sc), rest + end);
    EmitsOnce(s, Tag("file", [], sc), rest + end);
  }

  lemma EmitsOnce(s: string, tag: Tag, junk: string)
    requires NextPiece(s) == Emit(tag, junk) && NextPiece(junk).End?
    ensures Tags(s) == [tag]
    ensures '<' !in junk ==> AtBoundary(s)
  {
    assert [tag] + [] == [tag];
  }

  lemma NamelessFile(tag: Tag)
    requires tag.name == "file" && tag.attrs == []
    ensures ClassesFrom([tag], None) == [] && FileAfterAll(None, [tag]) == None
  {
    SingleTag(None, tag);
  }

  // ---------- declarations ----------

  function DeclText(d: Decl): string {
    Print(TagItems(DeclTags(d)))
  }

  lemma {:induction false} PrintConcat(a: seq<Tag>, b: seq<Tag>)
    ensures Print(TagItems(a + b)) == Print(TagItems(a)) + Print(TagItems(b))
  {
    if a == [] {
      assert a + b == b && [] + Print(TagItems(b)) == Print(TagItems(b));
    } else {
      var tag, rest := a[0], a[1..];
      assert a == [tag] + rest && a + b == [tag] + (rest + b);
      PrintConcat(rest, b);
      PrintFront(tag, rest);
      PrintFront(tag, rest + b);
      Assoc(TagText(tag), Print(TagItems(rest)), Print(TagItems(b)));
    }
  }

  lemma Assoc(a: string, b: string, c: string)
    ensures a + (b + c) == a + b + c
  {
  }

  lemma PrintFront(tag: Tag, rest: seq<Tag>)
    ensures Print(TagItems([tag] + rest)) == TagText(tag) + Print(TagItems(rest))
  {
    assert ([tag] + rest)[1..] == rest;
    assert TagItems([tag] + rest) == [TagItem(tag)] + TagItems(rest);
    assert ([TagItem(tag)] + TagItems(rest))[1..] == TagItems(rest);
  }

  lemma PrintOne(tag: Tag)
    ensures Print(TagItems([tag])) == TagText(tag)
  {
    PrintFront(tag, []);
    assert [tag] + [] == [tag] && TagText(tag) + [] == TagText(tag);
  }

  /** A declaration reads back on its own and leaves no file open. */
  ghost predicate ReadsBack(d: Decl) {
    && AtBoundary(DeclText(d))
    && ClassesFrom(Tags(DeclText(d)), None) == Meant(d)
    && FileAfterAll(None, Tags(DeclText(d))) == None
  }

  lemma CleanReadsBack(d: Decl)
    requires IsDecl(d)
    ensures ReadsBack(d)
  {
    DeclTagsArePrintable(d);
    TagItemsMeaning(DeclTags(d));
    ScannerUndoesPrinter(TagItems(DeclTags(d)));
    DeclTagsMeaning(d);
  }

  lemma EndTagScans()
    ensures Tags(TagText(FILE_END)) == [FILE_END] && AtBoundary(TagText(FILE_END))
  {
    NamesAreNames();
    TagTextScans(FILE_END);
    assert [FILE_END] + [] == [FILE_END];
  }

  /** What the text of a hidden file with a '>' in its name scans to. */
  lemma HiddenScans(d: Decl) returns (cut: Tag)
    requires IsHidden(d) && '"' !in d.name && '<' !in d.name && '>' in d.name
    ensures cut.name == "file" && cut.attrs == [] && AtBoundary(DeclText(d))
    ensures Tags(DeclText(d)) == if d.File? then [cut] + [FILE_END] else [cut]
  {
    var start := FileTag(d.name, d.EmptyFile?);
    CutFileTagScans(d.name, d.EmptyFile?);
    var sc :| Tags(TagText(start)) == [Tag("file", [], sc)];
    cut := Tag("file", [], sc);
    PrintOne(start);
    if d.File? {
      assert DeclTags(d) == [start] + [FILE_END];
      PrintConcat([start], [FILE_END]);
      PrintOne(FILE_END);
      EndTagScans();
      TagsCompose(TagText(start), TagText(FILE_END));
    }
  }

  lemma HiddenDeclaresNothing(cut: Tag)
    requires cut.name == "file" && cut.attrs == []
    ensures ClassesFrom([cut], None) == [] && FileAfterAll(None, [cut]) == None
    ensures ClassesFrom([cut] + [FILE_END], None) == [] && FileAfterAll(None, [cut] + [FILE_END]) == None
  {
    NamelessFile(cut);
    FileEndDeclaresNothing();
    SingleTag(None, FILE_END);
    ClassesConcat([cut], [FILE_END], None);
    FileAfterAllConcat(None, [cut], [FILE_END]);
  }

  lemma HiddenReadsBack(d: Decl)
    requires IsHidden(d) && '"' !in d.name && '<' !in d.name && '>' in d.name
    ensures ReadsBack(d)
  {
    var cut := HiddenScans(d);
    HiddenDeclaresNothing(cut);
  }

  lemma FileEndDeclaresNothing()
    ensures Declared(None, FILE_END) == [] && FileAfter(None, FILE_END) == None
  {
  }

  lemma ShownIsDecl(d: Decl)
    requires !IsHidden(d) && QuoteFree(d) && forall c :: c in Meant(d) ==> CleanClass(c)
    ensures IsDecl(d)
  {
    match d
    case File(name, classes) =>
      ScopedMembers(classes, Some(name));
      forall i | 0 <= i < |classes| ensures CleanClass(Meant(d)[i]) { assert Meant(d)[i] in Meant(d); }
      assert CleanClass(Meant(d)[0]);
    case Loose(c) =>
      ScopedMembers([c], None);
      assert Meant(d)[0] in Meant(d);
  }

  lemma {:induction false} DocReadsBack(doc: seq<Decl>)
    requires forall i :: 0 <= i < |doc| ==> QuoteFree(doc[i]) && !IsDecoy(doc[i])
    requires forall c :: c in Declares(doc) ==> CleanClass(c)
    ensures Parse(Print(TagItems(DocTags(doc)))) == Declares(doc)
  {
    if doc != [] {
      var d, rest := doc[0], doc[1..];
      DocReadsBack(rest);
      if IsHidden(d) && '>' in d.name {
        HiddenReadsBack(d);
      } else {
        if !IsHidden(d) { ShownIsDecl(d); }
        CleanReadsBack(d);
      }
      PrintConcat(DeclTags(d), DocTags(rest));
      var text := Print(TagItems(DocTags(rest)));
      TagsCompose(DeclText(d), text);
      ClassesConcat(Tags(DeclText(d)), Tags(text), None);
    }
  }

  /** A printed manifest without quotes in its values is read back exactly when no value that a
      declared class shows holds a '>'. The name of a file without classes shows nowhere; it
      must not hold both a '<' and a '>', which could spell a tag of its own. */
  lemma ManifestRoundTripExactlyWhen(doc: seq<Decl>)
    requires forall i :: 0 <= i < |doc| ==> QuoteFree(doc[i]) && !IsDecoy(doc[i])
    ensures Parse(Print(TagItems(DocTags(doc)))) == Declares(doc) <==> forall c :: c in Declares(doc) ==> CleanClass(c)
  {
    var xml := Print(TagItems(DocTags(doc)));
    NoValueHoldsTagEnd(xml);
    ClassesClean(Tags(xml), None);
    if forall c :: c in Declares(doc) ==> CleanClass(c) {
      DocReadsBack(doc);
    }
  }

  // ---------- a decoy ----------

  lemma {:induction false} NoDashNoEnd(s: string)
    requires '-' !in s
    ensures AfterComment(s).None?
  {
    if |s| >= 3 { NoDashNoEnd(s[1..]); }
  }

  lemma {:induction false} AttrTextLacks(attrs: seq<(string, string)>, c: char)
    requires c != ' ' && c != '=' && c != '"'
    requires forall i :: 0 <= i < |attrs| ==> c !in attrs[i].0 && c !in attrs[i].1
    ensures c !in AttrText(attrs)
  {
    if attrs != [] { AttrTextLacks(attrs[1..], c); }
  }

  lemma ClassTextHasNoDash()
    ensures '-' !in TagText(ClassTag(ClassDecl("c", None, None)))
  {
    var tag := ClassTag(ClassDecl("c", None, None));
    assert tag.attrs == [("clsid", "c")];
    assert '-' !in "clsid" && '-' !in "c" && '-' !in tag.name;
    AttrTextLacks(tag.attrs, '-');
    assert '-' !in TagBody(tag);
  }

  lemma OpenCommentEnds(rest: string)
    requires '-' !in rest
    ensures NextPiece("<!--" + rest).End?
  {
    var s, inside := "<!--" + rest, "!--" + rest;
    assert s[1..] == inside && inside[3..] == rest;
    NoDashNoEnd(rest);
  }

  lemma DecoyText(end: string, more: string)
    ensures ['<'] + (OPENING + ("><!--" + end)) + more == ['<'] + ((OPENING + []) + (['>'] + ("<!--" + (end + more))))
  {
    assert "><!--" == ['>'] + "<!--";
  }

  lemma DecoyScans(more: string)
    requires '-' !in more
    ensures exists sc :: Tags(TagText(FileTag("><!--", true)) + more) == [Tag("file", [], sc)]
  {
    FileTagText("><!--", true);
    var s := TagText(FileTag("><!--", true));
    var end :| '<' !in end && '-' !in end && s == ['<'] + (OPENING + ("><!--" + end));
    var junk := "<!--" + (end + more);
    DecoyText(end, more);
    CutFilePiece([], junk);
    var sc :| NextPiece(s + more) == Emit(Tag("file", [], sc), junk);
    OpenCommentEnds(end + more);
    EmitsOnce(s + more, Tag("file", [], sc), junk);
  }

  lemma TwoDecls(a: Decl, b: Decl)
    ensures DocTags([a, b]) == DeclTags(a) + DeclTags(b) && Declares([a, b]) == Meant(a) + Meant(b)
  {
    assert [a, b][1..] == [b] && [b][1..] == [];
    assert DocTags([b]) == DeclTags(b) + [] == DeclTags(b);
    assert Declares([b]) == Meant(b) + [] == Meant(b);
  }

  /** Why a hidden name must not hold both: this one opens a comment, and the class declared
      after it is lost. */
  lemma DecoySwallowsAClass()
    ensures var doc := [EmptyFile("><!--"), Loose(ClassDecl("c", None, None))];
            && QuoteFree(doc[0]) && QuoteFree(doc[1])
            && Declares(doc) == [ManifestComClass("c", None, None, None)]
            && Parse(Print(TagItems(DocTags(doc)))) == []
  {
    var c := ClassDecl("c", None, None);
    var file, class_ := FileTag("><!--", true), ClassTag(c);
    TwoDecls(EmptyFile("><!--"), Loose(c));
    ScopedMembers([c], None);
    assert [] + Scoped([c], None) == [ManifestComClass("c", None, None, None)];
    PrintFront(file, [class_]);
    PrintOne(class_);
    ClassTextHasNoDash();
    DecoyScans(TagText(class_));
    var sc :| Tags(TagText(file) + TagText(class_)) == [Tag("file", [], sc)];
    NamelessFile(Tag("file", [], sc));
  }
}
