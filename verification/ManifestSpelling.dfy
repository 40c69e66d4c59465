/**
 A manifest is read back however it is spelled: with any prefix before the names of its tags, any
 blanks and either kind of quotes around its values, and the names of its attributes in any case.
 */
module ManifestSpelling {
  import opened Wrappers
  import opened Text
  import opened TextFacts
  import opened Manifest
  import opened ManifestFacts
  import opened ManifestScope

  // ---------- names and values ----------

  /** The local name of a tag is what is behind its last colon. */
  lemma {:induction false} LocalNameMeaning(s: string)
    ensures ':' !in LocalName(s)
    ensures exists prefix :: s == prefix + LocalName(s) && (prefix == [] || prefix[|prefix| - 1] == ':')
  {
    if s == [] {
      assert s == [] + LocalName(s);
    } else {
      assert s == [s[0]] + s[1..];
      LocalNameMeaning(s[1..]);
      if ':' in s[1..] {
        var prefix :| s[1..] == prefix + LocalName(s[1..]) && (prefix == [] || prefix[|prefix| - 1] == ':');
        assert s == [s[0]] + prefix + LocalName(s) && prefix != [];
      } else if s[0] != ':' {
        assert s == [] + LocalName(s);
      }
    }
  }

  predicate IsNamed(attrs: seq<(string, string)>, i: nat, name: string)
    requires i < |attrs|
  {
    SameIgnoringCase(attrs[i].0, name)
  }

  /** The value of an attribute is that of the first one with its name, in any case. */
  lemma {:induction false} AttrValueMeaning(attrs: seq<(string, string)>, name: string)
    ensures AttrValue(attrs, name).None? <==> forall i: nat :: i < |attrs| ==> !IsNamed(attrs, i, name)
    ensures AttrValue(attrs, name).Some? ==>
              exists i: nat :: i < |attrs| && IsNamed(attrs, i, name) && AttrValue(attrs, name).value == attrs[i].1
                               && forall j: nat :: j < i ==> !IsNamed(attrs, j, name)
  {
    if attrs != [] {
      var rest := attrs[1..];
      assert forall i: nat :: i < |rest| ==> IsNamed(rest, i, name) == IsNamed(attrs, i + 1, name);
      if IsNamed(attrs, 0, name) {
        assert AttrValue(attrs, name).value == attrs[0].1;
      } else {
        AttrValueMeaning(rest, name);
        forall i: nat | i < |attrs| && IsNamed(attrs, i, name) ensures IsNamed(rest, i - 1, name) { }
        if i: nat :| i < |rest| && IsNamed(rest, i, name) && AttrValue(rest, name).value == rest[i].1
                     && forall j: nat :: j < i ==> !IsNamed(rest, j, name) {
          var k := i + 1;
          forall j: nat | j < k ensures !IsNamed(attrs, j, name) {
            if j > 0 { assert !IsNamed(rest, j - 1, name); }
          }
          assert IsNamed(attrs, k, name) && attrs[k] == rest[i];
        }
      }
    }
  }

  // ---------- spellings ----------

  /** How an attribute is written: the blanks before its name, before and behind the equals sign, the name
      itself, and the quotes. */
  datatype AttrSpelling = AttrSpelling(before: string, key: string, between: string, behind: string, quote: char)

  /** How a tag is written: the blanks before and behind it, and behind the slash of a self-closing one;
      the prefix of its name; its attributes. */
  datatype Spelling = Spelling(lead: string, prefix: string, attrs: seq<AttrSpelling>, tail: string, end: string)

  predicate SpellsAttr(a: AttrSpelling, attr: (string, string)) {
    && IsBlank(a.before) && IsBlank(a.between) && IsBlank(a.behind)
    && IsKey(a.key) && SameIgnoringCase(a.key, attr.0)
    && (a.quote == '"' || a.quote == '\'') && a.quote !in attr.1 && '>' !in attr.1
  }

  predicate SpellsAttrs(spelled: seq<AttrSpelling>, attrs: seq<(string, string)>) {
    |spelled| == |attrs| && forall i :: 0 <= i < |attrs| ==> SpellsAttr(spelled[i], attrs[i])
  }

  predicate IsPrefix(prefix: string) {
    && NoSpace(prefix) && '>' !in prefix
    && (prefix != [] ==> prefix[|prefix| - 1] == ':' && prefix[0] != '/' && prefix[0] != '!' && prefix[0] != '?')
  }

  predicate Spells(sp: Spelling, tag: Tag) {
    && IsName(tag.name) && SpellsAttrs(sp.attrs, tag.attrs) && IsPrefix(sp.prefix)
    && IsBlank(sp.lead) && IsBlank(sp.tail) && IsBlank(sp.end)
    && (sp.attrs != [] ==> sp.attrs[0].before != [])
  }

  function SpelledAttrs(spelled: seq<AttrSpelling>, attrs: seq<(string, string)>): string
    requires |spelled| == |attrs|
  {
    if attrs == [] then []
    else
      var a, rest := spelled[0], SpelledAttrs(spelled[1..], attrs[1..]);
      a.before + (a.key + a.between + (['='] + (a.behind + ([a.quote] + (attrs[0].1 + ([a.quote] + rest))))))
  }

  function SpelledName(sp: Spelling, name: string): string
    requires name != []
  {
    if name[0] == '/' then ['/'] + (sp.prefix + name[1..]) else sp.prefix + name
  }

  function SpelledRaw(sp: Spelling, tag: Tag): string
    requires Spells(sp, tag)
  {
    SpelledName(sp, tag.name) + SpelledAttrs(sp.attrs, tag.attrs)
  }

  function SpelledBody(sp: Spelling, tag: Tag): string
    requires Spells(sp, tag)
  {
    var raw := sp.lead + SpelledRaw(sp, tag) + sp.tail;
    if tag.selfClosing then raw + ['/'] + sp.end else raw
  }

  /** The attributes with their names as written. */
  function AsWritten(spelled: seq<AttrSpelling>, attrs: seq<(string, string)>): seq<(string, string)>
    requires |spelled| == |attrs|
  {
    if attrs == [] then [] else [(spelled[0].key, attrs[0].1)] + AsWritten(spelled[1..], attrs[1..])
  }

  function ReadAs(sp: Spelling, tag: Tag): Tag
    requires Spells(sp, tag)
  {
    Tag(tag.name, AsWritten(sp.attrs, tag.attrs), tag.selfClosing)
  }

  // ---------- blanks ----------

  lemma {:induction false} TrimStartBlank(b: string, s: string)
    requires IsBlank(b) && (s == [] || !IsWhitespace(s[0]))
    ensures TrimStart(b + s) == s
  {
    if b == [] {
      assert b + s == s;
    } else {
      assert (b + s)[1..] == b[1..] + s;
      TrimStartBlank(b[1..], s);
    }
  }

  lemma {:induction false} TrimEndBlank(s: string, b: string)
    requires IsBlank(b) && (s == [] || !IsWhitespace(s[|s| - 1]))
    ensures TrimEnd(s + b) == s
    decreases |b|
  {
    if b == [] {
      assert s + b == s;
    } else {
      assert (s + b)[..|s + b| - 1] == s + b[..|b| - 1];
      TrimEndBlank(s, b[..|b| - 1]);
    }
  }

  lemma TrimBlanks(before: string, s: string, after: string)
    requires IsBlank(before) && IsBlank(after)
    requires s != [] && !IsWhitespace(s[0]) && !IsWhitespace(s[|s| - 1])
    ensures Trim(before + s + after) == s
  {
    assert before + s + after == before + (s + after);
    TrimStartBlank(before, s + after);
    TrimEndBlank(s, after);
  }

  // ---------- one attribute ----------

  lemma BlankLacks(b: string, c: char)
    requires IsBlank(b) && !IsWhitespace(c)
    ensures c !in b
  {
  }

  lemma NextAttrSpelled(a: AttrSpelling, attr: (string, string), more: string)
    requires SpellsAttr(a, attr)
    ensures NextAttr(a.before + (a.key + a.between
                                 + (['='] + (a.behind + ([a.quote] + (attr.1 + ([a.quote] + more)))))))
         == Some(((a.key, attr.1), more))
  {
    var quoted := [a.quote] + (attr.1 + ([a.quote] + more));
    var front := a.key + a.between;
    var s := front + (['='] + (a.behind + quoted));
    assert s[0] == a.key[0];
    TrimStartBlank(a.before, s);
    BlankLacks(a.between, '=');
    CutAtFirst(front, '=', a.behind + quoted);
    TrimBlanks([], a.key, a.between);
    assert [] + a.key + a.between == front;
    TrimStartBlank(a.behind, quoted);
    assert quoted[1..] == attr.1 + ([a.quote] + more);
    CutAtFirst(attr.1, a.quote, more);
  }

  lemma {:induction false} SpelledAttrsRead(spelled: seq<AttrSpelling>, attrs: seq<(string, string)>)
    requires SpellsAttrs(spelled, attrs)
    ensures ParseAttrs(SpelledAttrs(spelled, attrs)) == AsWritten(spelled, attrs)
  {
    if attrs != [] {
      SpelledAttrsRead(spelled[1..], attrs[1..]);
      NextAttrSpelled(spelled[0], attrs[0], SpelledAttrs(spelled[1..], attrs[1..]));
    }
  }

  lemma LacksConcat(s: string, t: string, c: char)
    requires c !in s && c !in t
    ensures c !in s + t
  {
  }

  lemma {:induction false} SpelledAttrsLack(spelled: seq<AttrSpelling>, attrs: seq<(string, string)>)
    requires SpellsAttrs(spelled, attrs)
    ensures '>' !in SpelledAttrs(spelled, attrs)
  {
    if attrs != [] {
      var a, v, rest := spelled[0], attrs[0].1, SpelledAttrs(spelled[1..], attrs[1..]);
      SpelledAttrsLack(spelled[1..], attrs[1..]);
      BlankLacks(a.before, '>');
      BlankLacks(a.between, '>');
      BlankLacks(a.behind, '>');
      LacksConcat(v, [a.quote] + rest, '>');
      var quoted := [a.quote] + (v + ([a.quote] + rest));
      LacksConcat(a.behind, quoted, '>');
      var value := ['='] + (a.behind + quoted);
      LacksConcat(a.key, a.between, '>');
      LacksConcat(a.key + a.between, value, '>');
      LacksConcat(a.before, a.key + a.between + value, '>');
    }
  }

  lemma LastOf(s: string, t: string)
    requires t != []
    ensures s + t != [] && (s + t)[|s + t| - 1] == t[|t| - 1]
  {
  }

  lemma {:induction false} SpelledAttrsEnds(spelled: seq<AttrSpelling>, attrs: seq<(string, string)>)
    requires SpellsAttrs(spelled, attrs)
    ensures var s := SpelledAttrs(spelled, attrs);
            && (s == [] <==> attrs == [])
            && (s != [] ==> s[|s| - 1] == '"' || s[|s| - 1] == '\'')
            && (s != [] && spelled[0].before != [] ==> IsWhitespace(s[0]))
  {
    if attrs != [] {
      var a, v, rest := spelled[0], attrs[0].1, SpelledAttrs(spelled[1..], attrs[1..]);
      SpelledAttrsEnds(spelled[1..], attrs[1..]);
      var last := [a.quote] + rest;
      LastOf(v, last);
      LastOf([a.quote], v + last);
      LastOf(a.behind, [a.quote] + (v + last));
      LastOf(['='], a.behind + ([a.quote] + (v + last)));
      LastOf(a.key + a.between, ['='] + (a.behind + ([a.quote] + (v + last))));
      LastOf(a.before, a.key + a.between + (['='] + (a.behind + ([a.quote] + (v + last)))));
    }
  }

  // ---------- one tag ----------

  lemma ColonBehind(prefix: string, name: string, front: string, rest: string)
    requires prefix + name == front + rest && |front| < |prefix| && prefix[|prefix| - 1] == ':'
    ensures ':' in rest
  {
    var i := |prefix| - 1;
    assert (prefix + name)[i] == prefix[i] && (front + rest)[i] == rest[i - |front|];
  }

  lemma LocalNameOf(prefix: string, name: string)
    requires ':' !in name && (prefix != [] ==> prefix[|prefix| - 1] == ':')
    ensures LocalName(prefix + name) == name
  {
    var s := prefix + name;
    LocalNameMeaning(s);
    var front :| s == front + LocalName(s) && (front == [] || front[|front| - 1] == ':');
    if |front| < |prefix| {
      ColonBehind(prefix, name, front, LocalName(s));
    } else if |prefix| < |front| {
      ColonBehind(front, LocalName(s), prefix, name);
    } else {
      assert name == s[|prefix|..] && LocalName(s) == s[|front|..];
    }
  }

  lemma SpelledNameShape(sp: Spelling, name: string)
    requires IsName(name) && IsPrefix(sp.prefix)
    ensures var n := SpelledName(sp, name);
            && n != [] && NoSpace(n) && '>' !in n
            && n[0] != '!' && n[0] != '?' && n[|n| - 1] != '/'
            && (n[0] == '/' <==> name[0] == '/') && (name[0] == '/' ==> |n| > 1)
  {
    LastOf(sp.prefix, name);
    if name[0] == '/' {
      LastOf(sp.prefix, name[1..]);
    }
  }

  lemma SpelledNameIsLocal(sp: Spelling, name: string)
    requires IsName(name) && IsPrefix(sp.prefix)
    ensures var n := SpelledName(sp, name);
            n != [] && name == if n[0] == '/' then "/" + LocalName(n[1..]) else LocalName(n)
  {
    SpelledNameShape(sp, name);
    if name[0] == '/' {
      assert SpelledName(sp, name)[1..] == sp.prefix + name[1..] && "/" + name[1..] == name;
      LocalNameOf(sp.prefix, name[1..]);
    } else {
      LocalNameOf(sp.prefix, name);
    }
  }

  lemma SpelledRawReads(sp: Spelling, tag: Tag)
    requires Spells(sp, tag)
    ensures TagOf(SpelledRaw(sp, tag), tag.selfClosing) == Some(ReadAs(sp, tag))
  {
    var name, attrs := SpelledName(sp, tag.name), SpelledAttrs(sp.attrs, tag.attrs);
    SpelledNameShape(sp, tag.name);
    SpelledNameIsLocal(sp, tag.name);
    SpelledAttrsRead(sp.attrs, tag.attrs);
    SpelledAttrsEnds(sp.attrs, tag.attrs);
    CutNameStops(name, attrs);
    assert SpelledRaw(sp, tag)[0] == name[0];
  }

  lemma SpelledRawShape(sp: Spelling, tag: Tag)
    requires Spells(sp, tag)
    ensures var raw := SpelledRaw(sp, tag);
            && raw != [] && '>' !in raw && !IsWhitespace(raw[0]) && raw[0] != '!' && raw[0] != '?'
            && !IsWhitespace(raw[|raw| - 1]) && raw[|raw| - 1] != '/'
  {
    SpelledNameShape(sp, tag.name);
    SpelledAttrsLack(sp.attrs, tag.attrs);
    SpelledAttrsEnds(sp.attrs, tag.attrs);
    LacksConcat(SpelledName(sp, tag.name), SpelledAttrs(sp.attrs, tag.attrs), '>');
    if tag.attrs != [] {
      LastOf(SpelledName(sp, tag.name), SpelledAttrs(sp.attrs, tag.attrs));
    } else {
      assert SpelledRaw(sp, tag) == SpelledName(sp, tag.name);
    }
  }

  /** A trimmed tag body, by whether it ends in a slash. */
  lemma ClosedBodyReads(body: string, raw: string, gap: string, tag: Option<Tag>)
    requires Trim(body) == raw + gap + ['/'] && TrimEnd(raw + gap) == raw && TagOf(raw, true) == tag
    ensures ParseTag(body) == tag
  {
    var closed := raw + gap + ['/'];
    assert closed[|closed| - 1] == '/' && closed[..|closed| - 1] == raw + gap;
  }

  lemma OpenBodyReads(body: string, raw: string, tag: Option<Tag>)
    requires Trim(body) == raw && raw != [] && raw[|raw| - 1] != '/' && TagOf(raw, false) == tag
    ensures ParseTag(body) == tag
  {
  }

  lemma SpelledBodyTrims(sp: Spelling, tag: Tag)
    requires Spells(sp, tag)
    ensures Trim(SpelledBody(sp, tag)) ==
            if tag.selfClosing then SpelledRaw(sp, tag) + sp.tail + ['/'] else SpelledRaw(sp, tag)
  {
    var raw := SpelledRaw(sp, tag);
    SpelledRawShape(sp, tag);
    if tag.selfClosing {
      var closed := raw + sp.tail + ['/'];
      assert sp.lead + raw + sp.tail + ['/'] + sp.end == sp.lead + closed + sp.end;
      assert closed[0] == raw[0] && closed[|closed| - 1] == '/';
      TrimBlanks(sp.lead, closed, sp.end);
    } else {
      TrimBlanks(sp.lead, raw, sp.tail);
    }
  }

  /** A tag is read from any spelling of it. */
  lemma SpelledTagReads(sp: Spelling, tag: Tag)
    requires Spells(sp, tag)
    ensures ParseTag(SpelledBody(sp, tag)) == Some(ReadAs(sp, tag))
  {
    var body, raw, read := SpelledBody(sp, tag), SpelledRaw(sp, tag), Some(ReadAs(sp, tag));
    SpelledRawShape(sp, tag);
    SpelledRawReads(sp, tag);
    SpelledBodyTrims(sp, tag);
    if tag.selfClosing {
      TrimEndBlank(raw, sp.tail);
      ClosedBodyReads(body, raw, sp.tail, read);
    } else {
      OpenBodyReads(body, raw, read);
    }
  }

  // ---------- whole texts ----------

  /** A part of a manifest: a tag in some spelling, or what stands between tags. */
  datatype Part = Spelled(tag: Tag, spelling: Spelling) | Between(item: Item)

  predicate IsPart(p: Part) {
    match p
    case Spelled(tag, spelling) => Spells(spelling, tag)
    case Between(item) => IsItem(item) && !item.TagItem?
  }

  predicate AreParts(parts: seq<Part>) {
    forall i :: 0 <= i < |parts| ==> IsPart(parts[i])
  }

  function PartText(p: Part): string
    requires IsPart(p)
  {
    match p
    case Spelled(tag, spelling) => ['<'] + (SpelledBody(spelling, tag) + ['>'])
    case Between(item) => ItemText(item)
  }

  function Written(parts: seq<Part>): string
    requires AreParts(parts)
  {
    if parts == [] then [] else PartText(parts[0]) + Written(parts[1..])
  }

  /** The tags that are meant. */
  function TagsMeant(parts: seq<Part>): seq<Tag> {
    if parts == [] then []
    else (if parts[0].Spelled? then [parts[0].tag] else []) + TagsMeant(parts[1..])
  }

  /** The tags that are read. */
  function TagsWritten(parts: seq<Part>): seq<Tag>
    requires AreParts(parts)
  {
    if parts == [] then []
    else (if parts[0].Spelled? then [ReadAs(parts[0].spelling, parts[0].tag)] else []) + TagsWritten(parts[1..])
  }

  lemma SpelledBodyShape(sp: Spelling, tag: Tag)
    requires Spells(sp, tag)
    ensures var inside := SpelledBody(sp, tag) + ['>'];
            '>' !in SpelledBody(sp, tag) && !OpensComment(inside) && !OpensDeclaration(inside)
  {
    var raw := SpelledRaw(sp, tag);
    SpelledRawShape(sp, tag);
    BlankLacks(sp.lead, '>');
    BlankLacks(sp.tail, '>');
    BlankLacks(sp.end, '>');
    LacksConcat(sp.lead, raw, '>');
    LacksConcat(sp.lead + raw, sp.tail, '>');
    if tag.selfClosing { LacksConcat(sp.lead + raw + sp.tail, ['/'] + sp.end, '>'); }
    var inside := SpelledBody(sp, tag) + ['>'];
    assert inside[0] == if sp.lead == [] then raw[0] else sp.lead[0];
  }

  lemma PartScans(p: Part)
    requires IsPart(p)
    ensures AtBoundary(PartText(p))
    ensures Tags(PartText(p)) == if p.Spelled? then [ReadAs(p.spelling, p.tag)] else []
  {
    match p
    case Spelled(tag, spelling) =>
      SpelledBodyShape(spelling, tag);
      SpelledTagReads(spelling, tag);
      BodyScans(SpelledBody(spelling, tag), ReadAs(spelling, tag));
    case Between(item) => ItemScans(item);
  }

  /** From any spelling of any tags the scanner reads those tags, with their attributes named as written. */
  lemma {:induction false} ScannerReadsAnySpelling(parts: seq<Part>)
    requires AreParts(parts)
    ensures Tags(Written(parts)) == TagsWritten(parts) && AtBoundary(Written(parts))
  {
    if parts != [] {
      PartScans(parts[0]);
      ScannerReadsAnySpelling(parts[1..]);
      TagsCompose(PartText(parts[0]), Written(parts[1..]));
    }
  }

  // ---------- classes ----------

  lemma {:induction false} SameValues(spelled: seq<AttrSpelling>, attrs: seq<(string, string)>, name: string)
    requires SpellsAttrs(spelled, attrs)
    ensures AttrValue(AsWritten(spelled, attrs), name) == AttrValue(attrs, name)
  {
    if attrs != [] {
      SameValues(spelled[1..], attrs[1..], name);
      assert AsWritten(spelled, attrs)[1..] == AsWritten(spelled[1..], attrs[1..]);
    }
  }

  /** The scope that a tag leaves depends on its attributes by their values only. */
  lemma AlikeScope(a: Tag, b: Tag, file: Option<string>)
    requires a.name == b.name && a.selfClosing == b.selfClosing
    requires AttrValue(a.attrs, "name") == AttrValue(b.attrs, "name")
    ensures FileAfter(file, a) == FileAfter(file, b)
  {
  }

  /** And so does the class it declares. */
  lemma AlikeClass(a: Tag, b: Tag, file: Option<string>)
    requires a.name == b.name
    requires AttrValue(a.attrs, "clsid") == AttrValue(b.attrs, "clsid")
    requires AttrValue(a.attrs, "progid") == AttrValue(b.attrs, "progid")
    requires AttrValue(a.attrs, "threadingModel") == AttrValue(b.attrs, "threadingModel")
    ensures Declared(file, a) == Declared(file, b)
  {
  }

  lemma SameClasses(sp: Spelling, tag: Tag, file: Option<string>)
    requires Spells(sp, tag)
    ensures Declared(file, ReadAs(sp, tag)) == Declared(file, tag)
    ensures FileAfter(file, ReadAs(sp, tag)) == FileAfter(file, tag)
  {
    var read := ReadAs(sp, tag);
    SameValues(sp.attrs, tag.attrs, "name");
    SameValues(sp.attrs, tag.attrs, "clsid");
    SameValues(sp.attrs, tag.attrs, "progid");
    SameValues(sp.attrs, tag.attrs, "threadingModel");
    AlikeScope(read, tag, file);
    AlikeClass(read, tag, file);
  }

  lemma FrontClasses(tag: Tag, tags: seq<Tag>, file: Option<string>)
    ensures ClassesFrom([tag] + tags, file) == Declared(file, tag) + ClassesFrom(tags, FileAfter(file, tag))
  {
    CollectFront(Declared, FileAfter, tag, tags, file);
  }

  lemma {:induction false} SpellingKeepsClasses(parts: seq<Part>, file: Option<string>)
    requires AreParts(parts)
    ensures ClassesFrom(TagsWritten(parts), file) == ClassesFrom(TagsMeant(parts), file)
    decreases |parts|
  {
    if parts != [] {
      var read, meant := TagsWritten(parts[1..]), TagsMeant(parts[1..]);
      if parts[0].Spelled? {
        var sp, tag := parts[0].spelling, parts[0].tag;
        SameClasses(sp, tag, file);
        FrontClasses(ReadAs(sp, tag), read, file);
        FrontClasses(tag, meant, file);
        SpellingKeepsClasses(parts[1..], FileAfter(file, tag));
      } else {
        assert TagsWritten(parts) == [] + read == read && TagsMeant(parts) == [] + meant == meant;
        SpellingKeepsClasses(parts[1..], file);
      }
    }
  }

  /** A manifest is read back as the classes it declares, however its tags are spelled and whatever
      stands between them. */
  lemma SpelledManifestRoundTrip(doc: seq<Decl>, parts: seq<Part>)
    requires AreParts(parts) && TagsMeant(parts) == DocTags(doc)
    ensures Parse(Written(parts)) == Declares(doc)
  {
    ScannerReadsAnySpelling(parts);
    SpellingKeepsClasses(parts, None);
    DocTagsMeaning(doc);
  }
}
