/**
 The scanners of a loader-snaps line (src/main.rs): the DLL names in it, the first path, and the
 name behind "unable to load dll:". Indices count characters where the source counts bytes; the
 scanners stop at ASCII characters only, so that the two agree.
 */
module LineScan {
  import opened Wrappers
  import opened Text

  // ---------- tokens ----------

  predicate IsAlphanumeric(c: char) {
    'a' <= c <= 'z' || 'A' <= c <= 'Z' || '0' <= c <= '9'
  }

  predicate IsNameChar(c: char) {
    IsAlphanumeric(c) || c == '_' || c == '.' || c == '-'
  }

  predicate IsTokenChar(c: char) {
    IsNameChar(c) || c == '\\' || c == '/' || c == ':'
  }

  predicate IsQuoteOrSpace(c: char) {
    c == '"' || c == '\'' || IsWhitespace(c)
  }

  predicate IsNoNameChar(c: char) {
    !IsNameChar(c)
  }

  /** ".dll" stands at `at`. */
  predicate DllAt(text: string, at: nat) {
    at + 4 <= |text| && text[at] == '.' && text[at + 1] == 'd' && text[at + 2] == 'l' && text[at + 3] == 'l'
  }

  /** `find(".dll")` from an offset on. */
  function FindDll(text: string, offset: nat): (r: Option<nat>)
    requires offset <= |text|
    ensures r.Some? ==> offset <= r.value && DllAt(text, r.value)
    decreases |text| - offset
  {
    if offset + 4 > |text| then None
    else if DllAt(text, offset) then Some(offset)
    else FindDll(text, offset + 1)
  }

  lemma {:induction false} FindDllIsFirst(text: string, offset: nat, at: nat)
    requires offset <= |text| && offset <= at && DllAt(text, at)
    ensures FindDll(text, offset).Some? && FindDll(text, offset).value <= at
    decreases |text| - offset
  {
    if !DllAt(text, offset) { FindDllIsFirst(text, offset + 1, at); }
  }

  /** Where the token that ends at `at` starts. */
  function TokenStart(text: string, at: nat): (start: nat)
    requires at <= |text|
    ensures start <= at
  {
    if at > 0 && IsTokenChar(text[at - 1]) then TokenStart(text, at - 1) else at
  }

  /** The token that the ".dll" at `at` ends. */
  function TokenAt(text: string, at: nat): string
    requires at + 4 <= |text|
  {
    text[TokenStart(text, at)..at + 4]
  }

  function BasenameOf(token: string): string {
    TrimMatches(FileName(token), IsNoNameChar)
  }

  method FindTokenStart(text: string, at: nat) returns (start: nat)
    requires at <= |text|
    ensures start == TokenStart(text, at)
  {
    start := at;
    while start > 0 && IsTokenChar(text[start - 1])
      invariant start <= at && TokenStart(text, start) == TokenStart(text, at)
    {
      start := start - 1;
    }
  }

  lemma {:induction false} TokenChars(text: string, at: nat)
    requires at <= |text|
    ensures forall i :: TokenStart(text, at) <= i < at ==> IsTokenChar(text[i])
    ensures TokenStart(text, at) > 0 ==> !IsTokenChar(text[TokenStart(text, at) - 1])
  {
    if at > 0 && IsTokenChar(text[at - 1]) { TokenChars(text, at - 1); }
  }

  lemma NothingToTrim(s: string, strip: char -> bool)
    requires s != [] && !strip(s[0]) && !strip(s[|s| - 1])
    ensures TrimMatches(s, strip) == s
  {
  }

  /** The token, by walking back over its characters. Trimming quotes and blanks off it, as the
      source does, changes nothing. */
  method ReadToken(text: string, at: nat) returns (token: string)
    requires at + 4 <= |text| && IsTokenChar(text[at]) && IsTokenChar(text[at + 3])
    ensures token == TokenAt(text, at)
  {
    var start := FindTokenStart(text, at);
    TokenChars(text, at);
    token := text[start..at + 4];
    NothingToTrim(token, IsQuoteOrSpace);
    token := TrimMatches(token, IsQuoteOrSpace);
  }

  // ---------- the DLL names ----------

  predicate EndsInDll(name: string) {
    |name| >= 4 && DllAt(name, |name| - 4)
  }

  function Added(out: seq<string>, name: string): seq<string> {
    if name != [] && EndsInDll(name) && name !in out then out + [name] else out
  }

  function Unique(names: seq<string>, out: seq<string>): seq<string>
    decreases names
  {
    if names == [] then out else Unique(names[1..], Added(out, names[0]))
  }

  /** The tokens of the text that end in ".dll", from an offset on. */
  function TokensFrom(text: string, offset: nat): seq<string>
    requires offset <= |text|
    decreases |text| - offset
  {
    match FindDll(text, offset)
    case None => []
    case Some(at) => [TokenAt(text, at)] + TokensFrom(text, at + 4)
  }

  function Basenames(tokens: seq<string>): seq<string> {
    if tokens == [] then [] else [BasenameOf(tokens[0])] + Basenames(tokens[1..])
  }

  /** `extract_dll_basenames` */
  function DllBasenames(text: string): seq<string> {
    Unique(Basenames(TokensFrom(text, 0)), [])
  }

  lemma AddStep(token: string, tokens: seq<string>, out: seq<string>)
    ensures Unique(Basenames([token] + tokens), out) == Unique(Basenames(tokens), Added(out, BasenameOf(token)))
  {
    assert ([token] + tokens)[1..] == tokens;
    var names := Basenames(tokens);
    assert ([BasenameOf(token)] + names)[1..] == names;
  }

  method ExtractDllBasenames(text: string) returns (out: seq<string>)
    ensures out == DllBasenames(text)
  {
    out := [];
    var offset := 0;
    var found := FindDll(text, offset);
    while found.Some?
      invariant offset <= |text| && found == FindDll(text, offset)
      invariant Unique(Basenames(TokensFrom(text, offset)), out) == DllBasenames(text)
      decreases |text| - offset
    {
      var token := ReadToken(text, found.value);
      AddStep(token, TokensFrom(text, found.value + 4), out);
      out := Added(out, BasenameOf(token));
      offset := found.value + 4;
      found := FindDll(text, offset);
    }
  }

  // ---------- what the names are ----------

  lemma {:induction false} KeptFromStops(s: string, strip: char -> bool, i: nat, at: nat)
    requires i <= at < |s| && !strip(s[at])
    ensures KeptFrom(s, strip, i) <= at
    decreases at - i
  {
    if i < at && strip(s[i]) { KeptFromStops(s, strip, i + 1, at); }
  }

  lemma {:induction false} SegmentStartStops(p: string, i: nat, end: nat)
    requires i <= end <= |p| && forall k :: i <= k < end ==> !IsSeparator(p[k])
    ensures SegmentStart(p, end) <= i
    decreases end - i
  {
    if i < end { SegmentStartStops(p, i, end - 1); }
  }

  lemma BasenameOfDll(token: string)
    requires EndsInDll(token)
    ensures EndsInDll(BasenameOf(token))
  {
    SegmentStartStops(token, |token| - 4, |token|);
    var name := FileName(token);
    assert EndsInDll(name);
    KeptFromStops(name, IsNoNameChar, 0, |name| - 4);
  }

  /** Every token yields a name that ends in ".dll", so the two tests of the source reject nothing. */
  lemma TokenIsDll(text: string, at: nat)
    requires DllAt(text, at)
    ensures EndsInDll(TokenAt(text, at)) && EndsInDll(BasenameOf(TokenAt(text, at)))
  {
    BasenameOfDll(TokenAt(text, at));
  }

  /** The scan passes over no ".dll": two of them do not overlap. */
  lemma NonePassed(text: string, offset: nat, i: nat)
    requires offset <= |text| && offset <= i && DllAt(text, i)
    ensures var found := FindDll(text, offset);
            found.Some? && (i == found.value || found.value + 4 <= i)
  {
    FindDllIsFirst(text, offset, i);
  }

  /** The ".dll" at `at` ends this token. */
  ghost predicate IsToken(text: string, at: nat, token: string) {
    DllAt(text, at) && TokenAt(text, at) == token
  }

  lemma {:induction false} TokensMeaning(text: string, offset: nat, token: string)
    requires offset <= |text|
    ensures token in TokensFrom(text, offset) <==> exists at: nat :: offset <= at && IsToken(text, at, token)
    decreases |text| - offset
  {
    var found := FindDll(text, offset);
    forall at: nat | offset <= at && IsToken(text, at, token)
      ensures found.Some? && (at == found.value || found.value + 4 <= at)
    {
      NonePassed(text, offset, at);
    }
    if found.Some? {
      TokensMeaning(text, found.value + 4, token);
      if token == TokenAt(text, found.value) { assert IsToken(text, found.value, token); }
    }
  }

  lemma {:induction false} BasenamesMembers(tokens: seq<string>, name: string)
    ensures name in Basenames(tokens) <==> exists token :: token in tokens && BasenameOf(token) == name
  {
    if tokens != [] {
      assert tokens == [tokens[0]] + tokens[1..];
      BasenamesMembers(tokens[1..], name);
    }
  }

  ghost predicate Distinct(s: seq<string>) {
    forall i, j :: 0 <= i < j < |s| ==> s[i] != s[j]
  }

  lemma {:induction false} UniqueMembers(names: seq<string>, out: seq<string>, name: string)
    requires Distinct(out) && forall n :: n in names ==> EndsInDll(n)
    ensures Distinct(Unique(names, out))
    ensures name in Unique(names, out) <==> name in out || name in names
    decreases names
  {
    if names != [] {
      assert names == [names[0]] + names[1..];
      UniqueMembers(names[1..], Added(out, names[0]), name);
    }
  }

  ghost predicate Yields(text: string, at: nat, name: string) {
    DllAt(text, at) && BasenameOf(TokenAt(text, at)) == name
  }

  lemma NamesMeaning(text: string, name: string)
    ensures name in Basenames(TokensFrom(text, 0)) <==> exists at: nat :: Yields(text, at, name)
  {
    var tokens := TokensFrom(text, 0);
    BasenamesMembers(tokens, name);
    if at: nat :| Yields(text, at, name) {
      assert IsToken(text, at, TokenAt(text, at));
      TokensMeaning(text, 0, TokenAt(text, at));
    }
    if token :| token in tokens && BasenameOf(token) == name {
      TokensMeaning(text, 0, token);
      var at: nat :| IsToken(text, at, token);
      assert Yields(text, at, name);
    }
  }

  /** The names are those of the tokens that end in ".dll", without repeats. */
  lemma BasenamesMeaning(text: string)
    ensures forall name :: name in DllBasenames(text) <==> exists at: nat :: Yields(text, at, name)
    ensures Distinct(DllBasenames(text)) && forall name :: name in DllBasenames(text) ==> EndsInDll(name)
  {
    var names := Basenames(TokensFrom(text, 0));
    forall name ensures name in names <==> exists at: nat :: Yields(text, at, name) { NamesMeaning(text, name); }
    forall at: nat, name | Yields(text, at, name) ensures EndsInDll(name) { TokenIsDll(text, at); }
    UniqueMembers(names, [], []);
    forall name ensures name in Unique(names, []) <==> name in names { UniqueMembers(names, [], name); }
  }

  // ---------- the first path ----------

  predicate IsPathLike(token: string) {
    '\\' in token || '/' in token || ':' in token
  }

  /** `lower` says where the tokens end, and `text` what they are. */
  function PathFrom(text: string, lower: string, offset: nat): Option<string>
    requires offset <= |text| == |lower|
    decreases |text| - offset
  {
    match FindDll(lower, offset)
    case None => None
    case Some(at) =>
      if IsPathLike(TokenAt(text, at)) then Some(TokenAt(text, at)) else PathFrom(text, lower, at + 4)
  }

  /** `extract_candidate_path`, on a text in its own case. */
  function CandidatePath(text: string): Option<string> {
    LowerAt(text);
    PathFrom(text, Lower(text), 0)
  }

  lemma LowerTokenChar(c: char)
    requires LowerChar(c) == '.' || LowerChar(c) == 'l'
    ensures IsTokenChar(c)
  {
  }

  method ExtractCandidatePath(text: string) returns (path: Option<string>)
    ensures path == CandidatePath(text)
  {
    LowerAt(text);
    var lower := Lower(text);
    var offset := 0;
    var found := FindDll(lower, offset);
    while found.Some?
      invariant offset <= |text| && found == FindDll(lower, offset)
      invariant PathFrom(text, lower, offset) == CandidatePath(text)
      decreases |text| - offset
    {
      LowerTokenChar(text[found.value]);
      LowerTokenChar(text[found.value + 3]);
      var token := ReadToken(text, found.value);
      if IsPathLike(token) {
        return Some(token);
      }
      offset := found.value + 4;
      found := FindDll(lower, offset);
    }
    return None;
  }

  /** The ".dll" at `at` ends a token that is a path. */
  predicate PathAt(text: string, lower: string, at: nat) {
    |text| == |lower| && DllAt(lower, at) && IsPathLike(TokenAt(text, at))
  }

  ghost predicate FirstPathAt(text: string, lower: string, offset: nat, at: nat) {
    offset <= at && PathAt(text, lower, at) && forall i: nat :: offset <= i < at ==> !PathAt(text, lower, i)
  }

  lemma {:induction false} PathFromMeaning(text: string, lower: string, offset: nat)
    requires offset <= |text| == |lower|
    ensures var path := PathFrom(text, lower, offset);
            && (path.None? ==> forall i: nat :: offset <= i ==> !PathAt(text, lower, i))
            && (path.Some? ==>
                  exists at: nat :: FirstPathAt(text, lower, offset, at) && TokenAt(text, at) == path.value)
    decreases |text| - offset
  {
    var found := FindDll(lower, offset);
    forall i: nat | offset <= i && PathAt(text, lower, i)
      ensures found.Some? && (i == found.value || found.value + 4 <= i)
    {
      NonePassed(lower, offset, i);
    }
    if found.Some? {
      if IsPathLike(TokenAt(text, found.value)) {
        assert FirstPathAt(text, lower, offset, found.value);
      } else {
        PathFromMeaning(text, lower, found.value + 4);
        var path := PathFrom(text, lower, found.value + 4);
        if path.Some? {
          var at: nat :| FirstPathAt(text, lower, found.value + 4, at) && TokenAt(text, at) == path.value;
          assert FirstPathAt(text, lower, offset, at);
        }
      }
    }
  }

  /** The path of a line is its first token that ends in ".dll" and has a separator or a colon. */
  lemma CandidatePathMeaning(text: string)
    ensures |Lower(text)| == |text|
    ensures CandidatePath(text).None? <==> forall at: nat :: !PathAt(text, Lower(text), at)
    ensures CandidatePath(text).Some? ==>
              exists at: nat :: FirstPathAt(text, Lower(text), 0, at) && TokenAt(text, at) == CandidatePath(text).value
  {
    LowerAt(text);
    PathFromMeaning(text, Lower(text), 0);
  }

  // ---------- the name that could not be loaded ----------

  const UNABLE: string := "unable to load dll:"

  function Head(names: seq<string>): Option<string> {
    if names == [] then None else Some(names[0])
  }

  /** `extract_unable_to_load_dll` */
  function UnableDll(text: string): Option<string> {
    var idx :- FindFrom(text, UNABLE, 0);
    var rest := TrimStart(text[idx + |UNABLE|..]);
    if rest == [] then None
    else if rest[0] == '"' then Head(DllBasenames(UpTo(rest[1..], '"')))
    else if rest[0] == '\'' then Head(DllBasenames(UpTo(rest[1..], '\'')))
    else Head(DllBasenames(UpTo(rest, ',')))
  }
}
