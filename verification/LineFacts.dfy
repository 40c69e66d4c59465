/**
 What the scanners of a line find, apart from how they look for it: which characters make up a
 token, which name comes first, what a status is, and what stands behind "unable to load dll:".
 */
module LineFacts {
  import opened Wrappers
  import opened Text
  import opened TextFacts
  import opened LineScan
  import opened HexScan
  import PeImage

  // ---------- tokens ----------

  const DIGITS: string := "0123456789"

  /** A letter, a digit, or one of three other characters. */
  predicate InName(c: char) {
    c in LOWERCASE || c in UPPERCASE || c in DIGITS || c in "_.-"
  }

  /** A character of a name, a separator or a colon. */
  predicate InToken(c: char) {
    InName(c) || c in "\\/:"
  }

  lemma LowerLetterMeaning(c: char)
    ensures 'a' <= c <= 'z' <==> c in LOWERCASE
  {
    if 'a' <= c <= 'z' { assert LOWERCASE[c as int - 97] == c; }
  }

  lemma UpperLetterMeaning(c: char)
    ensures 'A' <= c <= 'Z' <==> c in UPPERCASE
  {
    if 'A' <= c <= 'Z' { assert UPPERCASE[c as int - 65] == c; }
  }

  lemma DigitMeaning(c: char)
    ensures '0' <= c <= '9' <==> c in DIGITS
  {
    if '0' <= c <= '9' { assert DIGITS[c as int - 48] == c; }
  }

  lemma CharsMeaning(c: char)
    ensures IsNameChar(c) <==> InName(c)
    ensures IsTokenChar(c) <==> InToken(c)
  {
    LowerLetterMeaning(c);
    UpperLetterMeaning(c);
    DigitMeaning(c);
  }

  /** The token that ends in the ".dll" at `at` is the longest run of token characters up to there. */
  ghost predicate IsTokenUpTo(text: string, at: nat, token: string) {
    && 4 <= |token| <= at + 4 <= |text| && token == text[at + 4 - |token|..at + 4]
    && (forall i :: at + 4 - |token| <= i < at ==> InToken(text[i]))
    && (|token| < at + 4 ==> !InToken(text[at + 3 - |token|]))
  }

  lemma TokenMeaning(text: string, at: nat)
    requires DllAt(text, at)
    ensures IsTokenUpTo(text, at, TokenAt(text, at))
  {
    var start := TokenStart(text, at);
    TokenChars(text, at);
    forall i | start <= i < at ensures InToken(text[i]) { CharsMeaning(text[i]); }
    if start > 0 { CharsMeaning(text[start - 1]); }
  }

  /** The name in a token: its last part, without other characters at its ends. */
  lemma BasenameMeaning(token: string)
    ensures IsStripped(FileName(token), c => !InName(c), BasenameOf(token))
  {
    var name, strip := FileName(token), (c: char) => !InName(c);
    forall c ensures IsNoNameChar(c) == strip(c) { CharsMeaning(c); }
    TrimMatchesMeaning(name, IsNoNameChar);
    var before, after :| IsAll(before, IsNoNameChar) && IsAll(after, IsNoNameChar)
                         && name == before + BasenameOf(token) + after;
    assert IsAll(before, strip) && IsAll(after, strip);
  }

  /** A token is a path when it holds a separator or a colon. */
  lemma PathLikeMeaning(token: string)
    ensures IsPathLike(token) <==> exists c :: c in token && c in "\\/:"
  {
  }

  // ---------- the order of the names ----------

  /** Each name of the list is in the text before any occurrence of those behind it in the list. */
  ghost predicate InOrder(text: string, names: seq<string>) {
    forall i, j :: 0 <= i < j < |names| ==> ComesBefore(text, names[i], names[j])
  }

  ghost predicate ComesBefore(text: string, a: string, b: string) {
    exists at: nat :: Yields(text, at, a) && forall k: nat :: Yields(text, k, b) ==> at < k
  }

  /** The list holds the names that are in the text before `offset`, in order. */
  ghost predicate HoldsNames(text: string, offset: nat, names: seq<string>) {
    && (forall name :: name in names <==> exists at: nat :: at < offset && Yields(text, at, name))
    && InOrder(text, names)
  }

  lemma AddedInOrder(text: string, offset: nat, names: seq<string>, at: nat)
    requires HoldsNames(text, offset, names) && offset <= at && DllAt(text, at)
    requires forall k: nat :: offset <= k < at ==> !DllAt(text, k)
    ensures HoldsNames(text, at + 4, Added(names, BasenameOf(TokenAt(text, at))))
  {
    var name := BasenameOf(TokenAt(text, at));
    var longer := Added(names, name);
    TokenIsDll(text, at);
    assert Yields(text, at, name);
    assert forall k: nat :: k < at + 4 && DllAt(text, k) ==> k < offset || k == at;
    forall n ensures n in longer <==> exists k: nat :: k < at + 4 && Yields(text, k, n) {
      if k: nat :| k < at + 4 && Yields(text, k, n) { assert k < offset || k == at; }
    }
    if longer != names {
      forall i | 0 <= i < |names| ensures ComesBefore(text, names[i], name) {
        assert names[i] in names;
        var k: nat :| k < offset && Yields(text, k, names[i]);
        assert forall l: nat :: Yields(text, l, name) ==> offset <= l;
      }
    }
  }

  lemma {:induction false} ScanInOrder(text: string, offset: nat, names: seq<string>)
    requires offset <= |text| && HoldsNames(text, offset, names)
    ensures InOrder(text, Unique(Basenames(TokensFrom(text, offset)), names))
    decreases |text| - offset
  {
    var found := FindDll(text, offset);
    if found.Some? {
      forall k: nat | offset <= k < found.value ensures !DllAt(text, k) {
        if DllAt(text, k) { FindDllIsFirst(text, offset, k); }
      }
      AddedInOrder(text, offset, names, found.value);
      AddStep(TokenAt(text, found.value), TokensFrom(text, found.value + 4), names);
      ScanInOrder(text, found.value + 4, Added(names, BasenameOf(TokenAt(text, found.value))));
    }
  }

  /** The names of a line are in the order of their first occurrences. */
  lemma NamesInOrder(text: string)
    ensures InOrder(text, DllBasenames(text))
  {
    ScanInOrder(text, 0, []);
  }

  // ---------- the name that could not be loaded ----------

  /** What is read of `rest`: what is in its quotes, or what is before its first comma. */
  ghost predicate IsNamePart(rest: string, part: string) {
    if rest == [] then part == []
    else if rest[0] == '"' || rest[0] == '\'' then
      part <= rest[1..] && rest[0] !in part && (|part| < |rest| - 1 ==> rest[|part| + 1] == rest[0])
    else part <= rest && ',' !in part && (|part| < |rest| ==> rest[|part|] == ',')
  }

  /** The first "unable to load dll:" is at `at`, and `part` is read of what stands behind it. */
  ghost predicate IsUnablePart(text: string, at: nat, part: string) {
    && at + 19 <= |text| && MatchAt(text, "unable to load dll:", at)
    && (forall k :: 0 <= k < at ==> !MatchAt(text, "unable to load dll:", k))
    && IsNamePart(TrimStart(text[at + 19..]), part)
  }

  lemma NamePartOf(rest: string) returns (part: string)
    ensures IsNamePart(rest, part)
    ensures rest == [] ==> part == []
    ensures rest != [] ==> part == if rest[0] == '"' then UpTo(rest[1..], '"')
                                   else if rest[0] == '\'' then UpTo(rest[1..], '\'')
                                   else UpTo(rest, ',')
  {
    if rest == [] {
      part := [];
    } else if rest[0] == '"' || rest[0] == '\'' {
      part := UpTo(rest[1..], rest[0]);
      UpToMeaning(rest[1..], rest[0]);
    } else {
      part := UpTo(rest, ',');
      UpToMeaning(rest, ',');
    }
  }

  /** The name behind the first "unable to load dll:" is the first name of that part; without one, and
      without those words, there is none. */
  lemma UnableMeaning(text: string)
    ensures if Contains(text, "unable to load dll:") then
              exists at, part ::
                && IsUnablePart(text, at, part)
                && UnableDll(text) == if DllBasenames(part) == [] then None else Some(DllBasenames(part)[0])
            else UnableDll(text).None?
  {
    var found := FindFrom(text, UNABLE, 0);
    if found.Some? {
      var part := NamePartOf(TrimStart(text[found.value + 19..]));
      assert DllBasenames([]) == [];
      assert IsUnablePart(text, found.value, part);
      assert Contains(text, "unable to load dll:");
    }
  }

  // ---------- numbers ----------

  /** The value of a hexadecimal digit, in either case. */
  predicate IsDigit(c: char, d: nat) {
    d < 16 && (c == "0123456789abcdef"[d] || c == "0123456789ABCDEF"[d])
  }

  lemma HexDigitMeaning(c: char, d: nat)
    ensures HexDigit(c) == Some(d) <==> IsDigit(c, d)
  {
  }

  /** The digits, the last one counting for itself and each other for sixteen times the one behind it. */
  ghost predicate IsNumber(s: string, value: nat) {
    if s == [] then value == 0
    else IsDigit(s[|s| - 1], value % 16) && IsNumber(s[..|s| - 1], value / 16)
  }

  lemma {:induction false} HexValuePush(s: string, c: char, acc: nat)
    ensures HexValue(s + [c], acc) == if HexValue(s, acc).Some? && HexDigit(c).Some?
                                      then Some(16 * HexValue(s, acc).value + HexDigit(c).value) else None
  {
    if s == [] {
      assert s + [c] == [c] && [c][1..] == [];
    } else {
      assert (s + [c])[1..] == s[1..] + [c];
      if HexDigit(s[0]).Some? { HexValuePush(s[1..], c, 16 * acc + HexDigit(s[0]).value); }
    }
  }

  lemma NumberPush(front: string, c: char, value: nat, d: nat)
    requires IsNumber(front, value) && IsDigit(c, d)
    ensures IsNumber(front + [c], 16 * value + d)
  {
    var s, v := front + [c], 16 * value + d;
    assert s[..|s| - 1] == front && v / 16 == value && v % 16 == d;
  }

  lemma {:induction false} ValueIsNumber(s: string)
    requires HexValue(s, 0).Some?
    ensures IsNumber(s, HexValue(s, 0).value)
  {
    if s != [] {
      var front, c := s[..|s| - 1], s[|s| - 1];
      assert s == front + [c];
      HexValuePush(front, c, 0);
      ValueIsNumber(front);
      HexDigitMeaning(c, HexDigit(c).value);
      NumberPush(front, c, HexValue(front, 0).value, HexDigit(c).value);
    }
  }

  lemma {:induction false} NumberIsValue(s: string, value: nat)
    requires IsNumber(s, value)
    ensures HexValue(s, 0) == Some(value)
  {
    if s != [] {
      var front, c := s[..|s| - 1], s[|s| - 1];
      assert s == front + [c];
      HexValuePush(front, c, 0);
      NumberIsValue(front, value / 16);
      HexDigitMeaning(c, value % 16);
    }
  }

  lemma HexValueMeaning(s: string, value: nat)
    ensures HexValue(s, 0) == Some(value) <==> IsNumber(s, value)
  {
    if HexValue(s, 0) == Some(value) { ValueIsNumber(s); }
    if IsNumber(s, value) { NumberIsValue(s, value); }
  }

  predicate AreDigits(s: string) {
    forall k :: 0 <= k < |s| ==> s[k] in DIGITS || s[k] in "abcdefABCDEF"
  }

  lemma DigitChars(c: char)
    ensures HexDigit(c).Some? <==> c in DIGITS || c in "abcdefABCDEF"
  {
    DigitMeaning(c);
  }

  lemma {:induction false} DigitsAreValues(s: string, acc: nat)
    ensures HexValue(s, acc).Some? <==> AreDigits(s)
  {
    if s != [] {
      DigitChars(s[0]);
      assert s == [s[0]] + s[1..];
      if HexDigit(s[0]).Some? { DigitsAreValues(s[1..], 16 * acc + HexDigit(s[0]).value); }
    }
  }

  /** A number stands at `i`: "0x" and eight digits. */
  lemma HexAtMeaning(text: string, i: nat)
    ensures HexAt(text, i) <==>
              i + 10 <= |text| && text[i] == '0' && text[i + 1] == 'x' && AreDigits(text[i + 2..i + 10])
  {
    if i + 10 <= |text| { DigitsAreValues(text[i + 2..i + 10], 0); }
  }

  // ---------- bytes ----------

  /** The width of a character is the length of its UTF-8 encoding. */
  lemma WidthMeaning(c: char)
    ensures PeImage.IsScalar(c as nat) && Width(c) == |PeImage.Encoded(c as nat)|
  {
  }

  function Scalars(s: string): seq<nat> {
    if s == [] then [] else [s[0] as nat] + Scalars(s[1..])
  }

  lemma {:induction false} ByteLenMeaning(s: string)
    ensures PeImage.AreScalars(Scalars(s)) && ByteLen(s) == |PeImage.EncodedText(Scalars(s))|
  {
    if s != [] {
      ByteLenMeaning(s[1..]);
      WidthMeaning(s[0]);
      PeImage.EncodedCons(s[0] as nat, Scalars(s[1..]));
    }
  }

  /** The characters in the first `n` bytes are those whose encoding is that long. */
  lemma {:induction false} CharsInMeaning(s: string, n: nat, k: nat)
    ensures CharsIn(s, n) == Some(k) <==> k <= |s| && ByteLen(s[..k]) == n
    decreases s
  {
    if k == 0 {
      assert s[..k] == [];
    } else if s != [] && k <= |s| {
      assert s[..k][1..] == s[1..][..k - 1];
      if Width(s[0]) <= n { CharsInMeaning(s[1..], n - Width(s[0]), k - 1); }
    }
    if s != [] && 0 < k && Width(s[0]) <= n && |s| < k { CharsInMeaning(s[1..], n - Width(s[0]), k - 1); }
  }
}
