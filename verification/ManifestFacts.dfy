/**
 The manifest scanner undoes a canonical printer, and comments, declarations and text between
 tags are invisible to it.
 */
module ManifestFacts {
  import opened Wrappers
  import opened Text
  import opened Manifest

  // ---------- cutting ----------

  lemma {:induction false} CutAtFirst(a: string, c: char, b: string)
    requires c !in a
    ensures CutAt(a + ([c] + b), c) == Some((a, b))
  {
    var s := a + ([c] + b);
    if a == [] {
      assert s == [c] + b && s[1..] == b;
    } else {
      assert a[0] in a && a == [a[0]] + a[1..];
      assert s[0] == a[0] && s[1..] == a[1..] + ([c] + b);
      CutAtFirst(a[1..], c, b);
    }
  }

  lemma {:induction false} CutAtMeaning(s: string, c: char)
    ensures CutAt(s, c).None? <==> c !in s
    ensures CutAt(s, c).Some? ==> c !in CutAt(s, c).value.0 && s == CutAt(s, c).value.0 + ([c] + CutAt(s, c).value.1)
  {
    if s != [] {
      assert s == [s[0]] + s[1..];
      if s[0] == c {
        assert s == [] + ([c] + s[1..]);
      } else {
        CutAtMeaning(s[1..], c);
        if CutAt(s[1..], c).Some? {
          var cut := CutAt(s[1..], c).value;
          assert [s[0]] + (cut.0 + ([c] + cut.1)) == [s[0]] + cut.0 + ([c] + cut.1);
        }
      }
    }
  }

  /** What was found stays found when text is appended. */
  lemma CutAtExtends(s: string, c: char, more: string)
    requires CutAt(s, c).Some?
    ensures CutAt(s + more, c) == Some((CutAt(s, c).value.0, CutAt(s, c).value.1 + more))
  {
    CutAtMeaning(s, c);
    var cut := CutAt(s, c).value;
    assert s + more == cut.0 + ([c] + (cut.1 + more));
    CutAtFirst(cut.0, c, cut.1 + more);
  }

  lemma CutAtSkips(s: string, c: char, more: string)
    requires c !in s
    ensures CutAt(s + more, c).None? <==> CutAt(more, c).None?
    ensures CutAt(more, c).Some? ==>
              CutAt(s + more, c).Some? && CutAt(s + more, c).value.1 == CutAt(more, c).value.1
  {
    CutAtMeaning(more, c);
    if CutAt(more, c).Some? {
      var cut := CutAt(more, c).value;
      assert s + more == (s + cut.0) + ([c] + cut.1);
      CutAtFirst(s + cut.0, c, cut.1);
    } else {
      CutAtMeaning(s + more, c);
    }
  }

  lemma {:induction false} AfterCommentExtends(s: string, more: string)
    requires AfterComment(s).Some?
    ensures AfterComment(s + more) == Some(AfterComment(s).value + more)
  {
    if s[0] == '-' && s[1] == '-' && s[2] == '>' {
      assert (s + more)[3..] == s[3..] + more;
    } else {
      assert (s + more)[1..] == s[1..] + more;
      AfterCommentExtends(s[1..], more);
    }
  }

  /** A comment text without an end inside ends where its end is written. */
  lemma {:induction false} AfterCommentFirst(text: string, more: string)
    requires AfterComment(text).None?
    ensures AfterComment(text + ("-->" + more)) == Some(more)
  {
    var s := text + ("-->" + more);
    if text == [] {
      assert s == "-->" + more && s[3..] == more;
    } else {
      assert s[1..] == text[1..] + ("-->" + more);
      AfterCommentFirst(text[1..], more);
      if |text| >= 3 {
        assert s[0] == text[0] && s[1] == text[1] && s[2] == text[2];
      } else {
        assert s[|text|] == '-' && s[|text| + 1] == '-';
      }
    }
  }

  // ---------- scanning is compositional ----------

  /** The scanner reads to the end of the text without being caught inside a tag. */
  predicate AtBoundary(s: string)
    decreases |s|
  {
    match NextPiece(s)
    case End(_) => '<' !in s
    case Skip(rest) => AtBoundary(rest)
    case Emit(_, rest) => AtBoundary(rest)
  }

  lemma OpensCommentExtends(s: string, more: string)
    requires '>' in s
    requires !OpensComment(s)
    ensures !OpensComment(s + more)
  {
    assert forall i :: 0 <= i < |s| ==> (s + more)[i] == s[i];
  }

  lemma NextPieceExtends(s: string, more: string)
    requires !NextPiece(s).End?
    ensures NextPiece(s + more) == match NextPiece(s) { case Skip(rest) => Skip(rest + more)
                                                        case Emit(tag, rest) => Emit(tag, rest + more) }
  {
    CutAtExtends(s, '<', more);
    var inside := CutAt(s, '<').value.1;
    if OpensComment(inside) {
      assert (inside + more)[3..] == inside[3..] + more;
      AfterCommentExtends(inside[3..], more);
    } else {
      CutAtExtends(inside, '>', more);
      CutAtMeaning(inside, '>');
      OpensCommentExtends(inside, more);
    }
  }

  lemma NextPieceSkips(s: string, more: string)
    requires '<' !in s
    ensures if NextPiece(more).End? then NextPiece(s + more).End? else NextPiece(s + more) == NextPiece(more)
  {
    CutAtSkips(s, '<', more);
  }

  /** The tags of two texts one after the other, when the first leaves the scanner between tags. */
  lemma {:induction false} TagsCompose(a: string, b: string)
    requires AtBoundary(a)
    ensures Tags(a + b) == Tags(a) + Tags(b)
    ensures AtBoundary(b) ==> AtBoundary(a + b)
    decreases |a|
  {
    match NextPiece(a)
    case End(_) =>
      NextPieceSkips(a, b);
      assert Tags(a) + Tags(b) == Tags(b);
    case Skip(rest) =>
      NextPieceExtends(a, b);
      TagsCompose(rest, b);
    case Emit(tag, rest) =>
      NextPieceExtends(a, b);
      TagsCompose(rest, b);
      TagsFront(tag, Tags(rest), Tags(b));
  }

  lemma TagsFront(tag: Tag, s: seq<Tag>, t: seq<Tag>)
    ensures [tag] + s + t == [tag] + (s + t)
  {
  }

  // ---------- the printer ----------

  function AttrText(attrs: seq<(string, string)>): string {
    if attrs == [] then []
    else [' '] + (attrs[0].0 + (['='] + (['"'] + (attrs[0].1 + (['"'] + AttrText(attrs[1..]))))))
  }

  function TagRaw(tag: Tag): string {
    tag.name + AttrText(tag.attrs)
  }

  function TagBody(tag: Tag): string {
    if tag.selfClosing then TagRaw(tag) + ['/'] else TagRaw(tag)
  }

  function TagText(tag: Tag): string {
    ['<'] + (TagBody(tag) + ['>'])
  }

  predicate NoSpace(s: string) {
    forall i :: 0 <= i < |s| ==> !IsWhitespace(s[i])
  }

  predicate IsKey(k: string) {
    k != [] && NoSpace(k) && '=' !in k && '>' !in k
  }

  predicate IsValue(v: string) {
    '"' !in v && '>' !in v
  }

  predicate AreAttrs(attrs: seq<(string, string)>) {
    forall i :: 0 <= i < |attrs| ==> IsKey(attrs[i].0) && IsValue(attrs[i].1)
  }

  predicate IsName(n: string) {
    && n != [] && NoSpace(n) && ':' !in n && '>' !in n
    && n[0] != '!' && n[0] != '?' && n[|n| - 1] != '/'
  }

  predicate IsPrintable(tag: Tag) {
    IsName(tag.name) && AreAttrs(tag.attrs)
  }

  // ---------- one attribute list ----------

  lemma NextAttrPrinted(k: string, v: string, more: string)
    requires IsKey(k) && '"' !in v
    ensures NextAttr([' '] + (k + (['='] + (['"'] + (v + (['"'] + more)))))) == Some(((k, v), more))
  {
    var tail := ['"'] + (v + (['"'] + more));
    var s := k + (['='] + tail);
    assert s[0] == k[0];
    assert TrimStart([' '] + s) == s by { assert ([' '] + s)[1..] == s; }
    CutAtFirst(k, '=', tail);
    assert Trim(k) == k;
    assert TrimStart(tail) == tail;
    assert tail[1..] == v + (['"'] + more);
    CutAtFirst(v, '"', more);
  }

  lemma {:induction false} AttrsRoundTrip(attrs: seq<(string, string)>)
    requires AreAttrs(attrs)
    ensures ParseAttrs(AttrText(attrs)) == attrs
  {
    if attrs != [] {
      AttrsRoundTrip(attrs[1..]);
      NextAttrPrinted(attrs[0].0, attrs[0].1, AttrText(attrs[1..]));
      assert attrs == [attrs[0]] + attrs[1..];
    }
  }

  lemma {:induction false} AttrTextShape(attrs: seq<(string, string)>)
    requires AreAttrs(attrs)
    ensures var s := AttrText(attrs);
            && '>' !in s
            && (s == [] || (s[0] == ' ' && s[|s| - 1] == '"'))
  {
    if attrs != [] {
      AttrTextShape(attrs[1..]);
    }
  }

  // ---------- one tag ----------

  lemma {:induction false} CutNameStops(name: string, rest: string)
    requires NoSpace(name) && (rest == [] || IsWhitespace(rest[0]))
    ensures CutName(name + rest) == (name, rest)
  {
    if name == [] {
      assert name + rest == rest;
    } else {
      assert name == [name[0]] + name[1..] && (name + rest)[1..] == name[1..] + rest;
      CutNameStops(name[1..], rest);
    }
  }

  lemma TagOfRaw(tag: Tag)
    requires IsPrintable(tag)
    ensures TagOf(TagRaw(tag), tag.selfClosing) == Some(tag)
  {
    var name, attrs := tag.name, AttrText(tag.attrs);
    AttrTextShape(tag.attrs);
    AttrsRoundTrip(tag.attrs);
    CutNameStops(name, attrs);
    assert TagRaw(tag)[0] == name[0];
    if name[0] == '/' {
      assert ':' !in name[1..] && "/" + name[1..] == name;
    }
  }

  lemma TagBodyShape(tag: Tag)
    requires IsPrintable(tag)
    ensures var raw, body := TagRaw(tag), TagBody(tag);
            && raw != [] && raw[0] == tag.name[0] && !IsWhitespace(raw[0])
            && !IsWhitespace(raw[|raw| - 1]) && raw[|raw| - 1] != '/'
            && '>' !in body && body[0] == raw[0]
  {
    AttrTextShape(tag.attrs);
  }

  lemma TagRoundTrip(tag: Tag)
    requires IsPrintable(tag)
    ensures ParseTag(TagBody(tag)) == Some(tag)
  {
    var raw, body := TagRaw(tag), TagBody(tag);
    TagBodyShape(tag);
    TagOfRaw(tag);
    assert Trim(body) == body;
    if tag.selfClosing {
      assert body[..|body| - 1] == raw;
      assert TrimEnd(raw) == raw;
    }
  }

  // ---------- whole texts ----------

  /** What may stand in a manifest: tags, and what the scanner must not see. */
  datatype Item = TagItem(tag: Tag) | Comment(text: string) | Declaration(text: string) | Chars(text: string)

  predicate IsItem(item: Item) {
    match item
    case TagItem(tag) => IsPrintable(tag)
    case Comment(text) => AfterComment(text).None?
    case Declaration(text) => OpensDeclaration(text) && !OpensComment(text) && '>' !in text
    case Chars(text) => '<' !in text
  }

  function ItemText(item: Item): string {
    match item
    case TagItem(tag) => TagText(tag)
    case Comment(text) => "<!--" + (text + "-->")
    case Declaration(text) => ['<'] + (text + ['>'])
    case Chars(text) => text
  }

  function Print(items: seq<Item>): string {
    if items == [] then [] else ItemText(items[0]) + Print(items[1..])
  }

  function TagsIn(items: seq<Item>): seq<Tag> {
    if items == [] then []
    else if items[0].TagItem? then [items[0].tag] + TagsIn(items[1..]) else TagsIn(items[1..])
  }

  /** A tag body in its brackets, whatever it is. */
  lemma BodyScans(body: string, tag: Tag)
    requires '>' !in body && ParseTag(body) == Some(tag)
    requires !OpensComment(body + ['>']) && !OpensDeclaration(body + ['>'])
    ensures NextPiece(['<'] + (body + ['>'])) == Emit(tag, [])
  {
    var inside := body + ['>'];
    var text := ['<'] + inside;
    assert text[1..] == inside && inside == body + (['>'] + []);
    CutAtFirst(body, '>', []);
  }

  lemma TagTextScans(tag: Tag)
    requires IsPrintable(tag)
    ensures NextPiece(TagText(tag)) == Emit(tag, [])
  {
    TagBodyShape(tag);
    TagRoundTrip(tag);
    BodyScans(TagBody(tag), tag);
  }

  lemma CommentScans(text: string)
    requires AfterComment(text).None?
    ensures NextPiece("<!--" + (text + "-->")) == Skip([])
  {
    var s, inside := "<!--" + (text + "-->"), "!--" + (text + "-->");
    assert s[1..] == inside;
    assert inside[3..] == text + ("-->" + []);
    AfterCommentFirst(text, []);
  }

  lemma DeclarationScans(text: string)
    requires OpensDeclaration(text) && !OpensComment(text) && '>' !in text
    ensures NextPiece(['<'] + (text + ['>'])) == Skip([])
  {
    var inside := text + ['>'];
    assert (['<'] + inside)[1..] == inside;
    assert inside == text + (['>'] + []);
    assert forall i :: 0 <= i < |text| ==> inside[i] == text[i];
    CutAtFirst(text, '>', []);
  }

  lemma ItemScans(item: Item)
    requires IsItem(item)
    ensures AtBoundary(ItemText(item))
    ensures Tags(ItemText(item)) == if item.TagItem? then [item.tag] else []
  {
    match item
    case TagItem(tag) => TagTextScans(tag);
    case Comment(text) => CommentScans(text);
    case Declaration(text) => DeclarationScans(text);
    case Chars(text) => CutAtMeaning(text, '<');
  }

  /** The scanner undoes the printer: from any text made of tags, comments, declarations and
      character data it reads exactly the tags, in order. */
  lemma {:induction false} ScannerUndoesPrinter(items: seq<Item>)
    requires forall i :: 0 <= i < |items| ==> IsItem(items[i])
    ensures Tags(Print(items)) == TagsIn(items) && AtBoundary(Print(items))
  {
    if items != [] {
      ItemScans(items[0]);
      ScannerUndoesPrinter(items[1..]);
      TagsCompose(ItemText(items[0]), Print(items[1..]));
    }
  }

  /** A closed comment inserted between tags, in any manifest at all, changes nothing. */
  lemma CommentsAreInvisible(before: string, text: string, after: string)
    requires AtBoundary(before) && AfterComment(text).None?
    ensures Parse(before + (("<!--" + (text + "-->")) + after)) == Parse(before + after)
  {
    var comment := "<!--" + (text + "-->");
    ItemScans(Comment(text));
    TagsCompose(comment, after);
    TagsCompose(before, comment + after);
    TagsCompose(before, after);
    assert [] + Tags(after) == Tags(after);
  }
}
