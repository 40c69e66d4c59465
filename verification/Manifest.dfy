/**
 The registration-free COM manifest scanner (src/com/manifest.rs): a tag iterator, the
 attribute list of a tag, and the class declarations with the file they are scoped to.
 */
module Manifest {
  import opened Wrappers
  import opened Text

  datatype Tag = Tag(name: string, attrs: seq<(string, string)>, selfClosing: bool)

  datatype ManifestComClass = ManifestComClass(
    clsid: string, progid: Option<string>, threadingModel: Option<string>, serverDll: Option<string>)

  /** What `find(c)` splits a string into: the text before the first `c`, and the text after it. */
  function CutAt(s: string, c: char): (r: Option<(string, string)>)
    ensures r.Some? ==> |r.value.0| + |r.value.1| + 1 == |s|
  {
    if s == [] then None
    else if s[0] == c then Some(([], s[1..]))
    else
      var cut :- CutAt(s[1..], c);
      Some(([s[0]] + cut.0, cut.1))
  }

  // ---------- attributes ----------

  predicate IsQuote(c: char) {
    c == '"' || c == '\''
  }

  /** One round of `parse_attrs`: an attribute and what follows it. */
  function NextAttr(s: string): (r: Option<((string, string), string)>)
    ensures r.Some? ==> |r.value.1| < |s|
  {
    TrimStartLength(s);
    var cut :- CutAt(TrimStart(s), '=');
    TrimStartLength(cut.1);
    var rest := TrimStart(cut.1);
    if rest == [] || !IsQuote(rest[0]) then None
    else
      var value :- CutAt(rest[1..], rest[0]);
      Some(((Trim(cut.0), value.0), value.1))
  }

  function ParseAttrs(s: string): seq<(string, string)>
    decreases |s|
  {
    match NextAttr(s)
    case None => []
    case Some((attr, rest)) => if attr.0 == [] then ParseAttrs(rest) else [attr] + ParseAttrs(rest)
  }

  lemma {:induction false} TrimStartLength(s: string)
    ensures |TrimStart(s)| <= |s|
  {
    if s != [] && IsWhitespace(s[0]) { TrimStartLength(s[1..]); }
  }

  /** `parse_attrs` */
  method ParseAttrList(text: string) returns (attrs: seq<(string, string)>)
    ensures attrs == ParseAttrs(text)
  {
    attrs := [];
    var rest := text;
    while true
      invariant attrs + ParseAttrs(rest) == ParseAttrs(text)
      decreases |rest|
    {
      ghost var before := rest;
      TrimStartLength(rest);
      rest := TrimStart(rest);
      var eq := CutAt(rest, '=');
      if eq.None? { break; }
      var key := Trim(eq.value.0);
      TrimStartLength(eq.value.1);
      rest := TrimStart(eq.value.1);
      if rest == [] || !IsQuote(rest[0]) { break; }
      var value := CutAt(rest[1..], rest[0]);
      if value.None? { break; }
      rest := value.value.1;
      assert NextAttr(before) == Some(((key, value.value.0), rest));
      if key != [] {
        assert attrs + ([(key, value.value.0)] + ParseAttrs(rest)) == attrs + [(key, value.value.0)] + ParseAttrs(rest);
        attrs := attrs + [(key, value.value.0)];
      }
    }
  }

  /** `attr_value` */
  function AttrValue(attrs: seq<(string, string)>, name: string): Option<string> {
    if attrs == [] then None
    else if SameIgnoringCase(attrs[0].0, name) then Some(attrs[0].1)
    else AttrValue(attrs[1..], name)
  }

  // ---------- tags ----------

  /** The name of a tag, up to the first white space, and the rest. */
  function CutName(s: string): (string, string) {
    if s == [] || IsWhitespace(s[0]) then ([], s)
    else var cut := CutName(s[1..]); ([s[0]] + cut.0, cut.1)
  }

  /** `rsplit(':').next()` */
  function LocalName(s: string): string {
    if s == [] then []
    else if ':' in s[1..] then LocalName(s[1..])
    else if s[0] == ':' then s[1..] else s
  }

  function TagOf(raw: string, selfClosing: bool): Option<Tag> {
    var cut := CutName(raw);
    if raw != [] && raw[0] == '/' then
      if |cut.0| <= 1 then None
      else Some(Tag("/" + LocalName(cut.0[1..]), ParseAttrs(cut.1), selfClosing))
    else if cut.0 == [] then None
    else Some(Tag(LocalName(cut.0), ParseAttrs(cut.1), selfClosing))
  }

  /** `parse_tag` */
  function ParseTag(body: string): Option<Tag> {
    var trimmed := Trim(body);
    if trimmed == [] then None
    else if trimmed[|trimmed| - 1] == '/' then TagOf(TrimEnd(trimmed[..|trimmed| - 1]), true)
    else TagOf(trimmed, false)
  }

  /** The text after the first comment end. */
  function AfterComment(s: string): (r: Option<string>)
    ensures r.Some? ==> |r.value| < |s|
  {
    if |s| < 3 then None
    else if s[0] == '-' && s[1] == '-' && s[2] == '>' then Some(s[3..])
    else AfterComment(s[1..])
  }

  predicate OpensComment(s: string) {
    |s| >= 3 && s[0] == '!' && s[1] == '-' && s[2] == '-'
  }

  predicate OpensDeclaration(s: string) {
    s != [] && (s[0] == '?' || s[0] == '!')
  }

  /** One round of the iterator's loop. */
  datatype Piece = End(rest: string) | Skip(rest: string) | Emit(tag: Tag, rest: string)

  function NextPiece(s: string): (r: Piece)
    ensures !r.End? ==> |r.rest| < |s|
  {
    match CutAt(s, '<')
    case None => End(s)
    case Some((_, inside)) =>
      if OpensComment(inside) then
        match AfterComment(inside[3..])
        case None => End(inside)
        case Some(rest) => Skip(rest)
      else
        match CutAt(inside, '>')
        case None => End(inside)
        case Some((body, rest)) =>
          if OpensDeclaration(inside) then Skip(rest)
          else
            match ParseTag(body)
            case None => Skip(rest)
            case Some(tag) => Emit(tag, rest)
  }

  function NextTag(s: string): (r: (Option<Tag>, string))
    ensures r.0.Some? ==> |r.1| < |s|
    decreases |s|
  {
    match NextPiece(s)
    case End(rest) => (None, rest)
    case Skip(rest) => NextTag(rest)
    case Emit(tag, rest) => (Some(tag), rest)
  }

  /** Every tag the iterator yields. */
  function Tags(s: string): seq<Tag>
    decreases |s|
  {
    match NextPiece(s)
    case End(_) => []
    case Skip(rest) => Tags(rest)
    case Emit(tag, rest) => [tag] + Tags(rest)
  }

  lemma {:induction false} TagsByNext(s: string)
    ensures Tags(s) == match NextTag(s) { case (None, _) => [] case (Some(tag), rest) => [tag] + Tags(rest) }
    decreases |s|
  {
    match NextPiece(s)
    case End(_) =>
    case Skip(rest) => TagsByNext(rest);
    case Emit(_, _) =>
  }

  class TagIter {
    var rest: string

    constructor (xml: string)
      ensures rest == xml
    {
      rest := xml;
    }

    method Next() returns (tag: Option<Tag>)
      modifies this
      ensures (tag, rest) == NextTag(old(rest))
    {
      while true
        invariant NextTag(rest) == NextTag(old(rest))
        decreases |rest|
      {
        var open := CutAt(rest, '<');
        if open.None? { return None; }
        var inside := open.value.1;

        if OpensComment(inside) {
          var end := AfterComment(inside[3..]);
          if end.None? {
            rest := inside;
            return None;
          }
          rest := end.value;
          continue;
        }
        var close := CutAt(inside, '>');
        if close.None? {
          rest := inside;
          return None;
        }
        rest := close.value.1;
        if OpensDeclaration(inside) { continue; }

        tag := ParseTag(close.value.0);
        if tag.Some? { return; }
      }
    }
  }

  // ---------- classes ----------

  /** The file scope after a tag. */
  function FileAfter(file: Option<string>, tag: Tag): Option<string> {
    if tag.name == "file" then if tag.selfClosing then None else AttrValue(tag.attrs, "name")
    else if tag.name == "/file" then None
    else file
  }

  function ClassOf(file: Option<string>, tag: Tag): Option<ManifestComClass> {
    if tag.name != "comClass" then None
    else
      var clsid :- AttrValue(tag.attrs, "clsid");
      Some(ManifestComClass(clsid, AttrValue(tag.attrs, "progid"), AttrValue(tag.attrs, "threadingModel"), file))
  }

  function Declared(file: Option<string>, tag: Tag): seq<ManifestComClass> {
    var c := ClassOf(file, tag);
    if c.Some? then [c.value] else []
  }

  /** What the tags declare, each under the scope that the tags before it leave. */
  function Collect(declared: (Option<string>, Tag) -> seq<ManifestComClass>,
                   after: (Option<string>, Tag) -> Option<string>,
                   tags: seq<Tag>, file: Option<string>): seq<ManifestComClass>
    decreases |tags|
  {
    if tags == [] then []
    else declared(file, tags[0]) + Collect(declared, after, tags[1..], after(file, tags[0]))
  }

  function ClassesFrom(tags: seq<Tag>, file: Option<string>): seq<ManifestComClass> {
    Collect(Declared, FileAfter, tags, file)
  }

  function Parse(xml: string): seq<ManifestComClass> {
    ClassesFrom(Tags(xml), None)
  }

  lemma CollectFront(declared: (Option<string>, Tag) -> seq<ManifestComClass>,
                     after: (Option<string>, Tag) -> Option<string>,
                     tag: Tag, rest: seq<Tag>, file: Option<string>)
    ensures Collect(declared, after, [tag] + rest, file)
            == declared(file, tag) + Collect(declared, after, rest, after(file, tag))
  {
    assert ([tag] + rest)[1..] == rest;
  }

  lemma ClassesInOrder(a: seq<ManifestComClass>, b: seq<ManifestComClass>, c: seq<ManifestComClass>)
    ensures a + (b + c) == a + b + c
  {
  }

  lemma TagAdvances(classes: seq<ManifestComClass>, tag: Tag, after: seq<Tag>, file: Option<string>)
    ensures classes + ClassesFrom([tag] + after, file)
            == classes + Declared(file, tag) + ClassesFrom(after, FileAfter(file, tag))
  {
    CollectFront(Declared, FileAfter, tag, after, file);
    ClassesInOrder(classes, Declared(file, tag), ClassesFrom(after, FileAfter(file, tag)));
  }

  /** `parse_manifest_com_classes` */
  method ParseManifestComClasses(xml: string) returns (classes: seq<ManifestComClass>)
    ensures classes == Parse(xml)
  {
    classes := [];
    var currentFile: Option<string> := None;
    var iter := new TagIter(xml);
    while true
      invariant classes + ClassesFrom(Tags(iter.rest), currentFile) == Parse(xml)
      decreases |iter.rest|
    {
      TagsByNext(iter.rest);
      var next := iter.Next();
      if next.None? { break; }
      var tag := next.value;
      TagAdvances(classes, tag, Tags(iter.rest), currentFile);
      ghost var file, done := currentFile, classes;
      match tag.name {
        case "file" =>
          currentFile := AttrValue(tag.attrs, "name");
          if tag.selfClosing { currentFile := None; }
        case "/file" =>
          currentFile := None;
        case "comClass" =>
          var clsid := AttrValue(tag.attrs, "clsid");
          if clsid.Some? {
            classes := classes + [ManifestComClass(clsid.value, AttrValue(tag.attrs, "progid"),
                                                   AttrValue(tag.attrs, "threadingModel"), currentFile)];
          }
        case _ =>
      }
      assert currentFile == FileAfter(file, tag);
      assert classes == done + Declared(file, tag);
    }
  }
}
