/**
 What the text operations mean: each of them against a definition that does not compute it.
 */
module TextFacts {
  import opened Text

  // ---------- case ----------

  const UPPERCASE: string := "ABCDEFGHIJKLMNOPQRSTUVWXYZ"
  const LOWERCASE: string := "abcdefghijklmnopqrstuvwxyz"

  /** The 26 letters change case, and nothing else does. */
  lemma CaseMeaning(c: char)
    ensures forall i :: 0 <= i < 26 ==> LowerChar(UPPERCASE[i]) == LOWERCASE[i]
                                        && UpperChar(LOWERCASE[i]) == UPPERCASE[i]
    ensures c !in UPPERCASE ==> LowerChar(c) == c
    ensures c !in LOWERCASE ==> UpperChar(c) == c
  {
    if 'A' <= c <= 'Z' { assert UPPERCASE[c as int - 65] == c; }
    if 'a' <= c <= 'z' { assert LOWERCASE[c as int - 97] == c; }
  }

  // ---------- blanks ----------

  /** The 25 characters with the Unicode property White_Space. */
  lemma WhitespaceMeaning(c: char)
    ensures IsWhitespace(c) <==>
            c as int in {0x9, 0xA, 0xB, 0xC, 0xD, 0x20, 0x85, 0xA0, 0x1680, 0x2000, 0x2001, 0x2002, 0x2003, 0x2004,
                         0x2005, 0x2006, 0x2007, 0x2008, 0x2009, 0x200A, 0x2028, 0x2029, 0x202F, 0x205F, 0x3000}
  {
  }

  predicate IsBlank(text: string) {
    forall i :: 0 <= i < |text| ==> IsWhitespace(text[i])
  }

  /** `t` is what is left of `s` without the blanks at both ends. */
  ghost predicate IsTrimmed(s: string, t: string) {
    && (exists before, after :: IsBlank(before) && IsBlank(after) && s == before + t + after)
    && (t != [] ==> !IsWhitespace(t[0]) && !IsWhitespace(t[|t| - 1]))
  }

  lemma {:induction false} TrimStartMeaning(s: string) returns (before: string)
    ensures IsBlank(before) && s == before + TrimStart(s)
    ensures TrimStart(s) != [] ==> !IsWhitespace(TrimStart(s)[0])
  {
    before := [];
    if s != [] && IsWhitespace(s[0]) {
      var rest := TrimStartMeaning(s[1..]);
      before := [s[0]] + rest;
    }
  }

  lemma {:induction false} TrimEndMeaning(s: string) returns (after: string)
    ensures IsBlank(after) && s == TrimEnd(s) + after
    ensures TrimEnd(s) != [] ==> !IsWhitespace(TrimEnd(s)[|TrimEnd(s)| - 1])
    decreases |s|
  {
    after := [];
    if s != [] && IsWhitespace(s[|s| - 1]) {
      var rest := TrimEndMeaning(s[..|s| - 1]);
      after := rest + [s[|s| - 1]];
    }
  }

  lemma TrimMeaning(s: string)
    ensures IsTrimmed(s, Trim(s))
  {
    var before := TrimStartMeaning(s);
    var after := TrimEndMeaning(TrimStart(s));
    assert s == before + Trim(s) + after;
  }

  /** A text has nothing but blanks exactly when nothing is left of it. */
  lemma BlankTrims(s: string)
    ensures Trim(s) == [] <==> IsBlank(s)
  {
    TrimMeaning(s);
    var before, after :| IsBlank(before) && IsBlank(after) && s == before + Trim(s) + after;
    if Trim(s) != [] { assert s[|before|] == Trim(s)[0]; }
  }

  // ---------- other ends ----------

  predicate IsAll(s: string, strip: char -> bool) {
    forall i :: 0 <= i < |s| ==> strip(s[i])
  }

  /** `t` is what is left of `s` without the characters to be stripped at both ends. */
  ghost predicate IsStripped(s: string, strip: char -> bool, t: string) {
    && (exists before, after :: IsAll(before, strip) && IsAll(after, strip) && s == before + t + after)
    && (t != [] ==> !strip(t[0]) && !strip(t[|t| - 1]))
  }

  lemma {:induction false} KeptFromMeaning(s: string, strip: char -> bool, i: nat)
    requires i <= |s|
    ensures var r := KeptFrom(s, strip, i);
            (forall k :: i <= k < r ==> strip(s[k])) && (r < |s| ==> !strip(s[r]))
    decreases |s| - i
  {
    if i < |s| && strip(s[i]) { KeptFromMeaning(s, strip, i + 1); }
  }

  lemma {:induction false} KeptUpToMeaning(s: string, strip: char -> bool, i: nat, j: nat)
    requires i <= j <= |s|
    ensures var r := KeptUpTo(s, strip, i, j);
            (forall k :: r <= k < j ==> strip(s[k])) && (r > i ==> !strip(s[r - 1]))
  {
    if i < j && strip(s[j - 1]) { KeptUpToMeaning(s, strip, i, j - 1); }
  }

  lemma StrippedBetween(s: string, strip: char -> bool, i: nat, j: nat)
    requires i <= j <= |s| && (forall k :: 0 <= k < i ==> strip(s[k])) && (forall k :: j <= k < |s| ==> strip(s[k]))
    requires i < j ==> !strip(s[i]) && !strip(s[j - 1])
    ensures IsStripped(s, strip, s[i..j])
  {
    var before, after := s[..i], s[j..];
    assert IsAll(before, strip) && IsAll(after, strip);
    assert s == before + s[i..j] + after;
  }

  lemma TrimMatchesMeaning(s: string, strip: char -> bool)
    ensures IsStripped(s, strip, TrimMatches(s, strip))
  {
    var i := KeptFrom(s, strip, 0);
    KeptFromMeaning(s, strip, 0);
    KeptUpToMeaning(s, strip, i, |s|);
    StrippedBetween(s, strip, i, KeptUpTo(s, strip, i, |s|));
  }

  lemma {:induction false} TrimQuotesMeaning(s: string)
    ensures IsStripped(s, c => c == '"', TrimQuotes(s))
    decreases |s|
  {
    var strip, t := (c: char) => c == '"', TrimQuotes(s);
    if s != [] && s[0] == '"' {
      TrimQuotesMeaning(s[1..]);
      var before, after :| IsAll(before, strip) && IsAll(after, strip) && s[1..] == before + t + after;
      assert IsAll([s[0]] + before, strip) && s == [s[0]] + before + t + after;
    } else if s != [] && s[|s| - 1] == '"' {
      TrimQuotesMeaning(s[..|s| - 1]);
      var before, after :| IsAll(before, strip) && IsAll(after, strip) && s[..|s| - 1] == before + t + after;
      assert IsAll(after + [s[|s| - 1]], strip) && s == before + t + (after + [s[|s| - 1]]);
    } else {
      assert IsAll([], strip) && s == [] + t + [];
    }
  }

  // ---------- parts ----------

  lemma {:induction false} ReplaceMeaning(s: string, from: char, to: char)
    ensures |Replace(s, from, to)| == |s|
    ensures forall i :: 0 <= i < |s| ==> Replace(s, from, to)[i] == if s[i] == from then to else s[i]
  {
    if s != [] { ReplaceMeaning(s[1..], from, to); }
  }

  /** The part before the first `c`, or the whole. */
  lemma {:induction false} UpToMeaning(s: string, c: char)
    ensures UpTo(s, c) <= s && c !in UpTo(s, c)
    ensures |UpTo(s, c)| < |s| ==> s[|UpTo(s, c)|] == c
  {
    if s != [] && s[0] != c { UpToMeaning(s[1..], c); }
  }

  lemma {:induction false} SegmentStartMeaning(p: string, i: nat)
    requires i <= |p|
    ensures var start := SegmentStart(p, i);
            (forall k :: start <= k < i ==> !IsSeparator(p[k])) && (start > 0 ==> IsSeparator(p[start - 1]))
  {
    if i > 0 && !IsSeparator(p[i - 1]) { SegmentStartMeaning(p, i - 1); }
  }

  /** A file name is the last part of a path: behind its last slash of either kind, or all of it. */
  lemma FileNameMeaning(p: string)
    ensures exists dir :: p == dir + FileName(p) && (dir == [] || dir[|dir| - 1] in "\\/")
    ensures '\\' !in FileName(p) && '/' !in FileName(p)
  {
    SegmentStartMeaning(p, |p|);
    var start := SegmentStart(p, |p|);
    assert p == p[..start] + FileName(p);
    forall c | c in FileName(p) ensures c != '\\' && c != '/' {
      var k :| 0 <= k < |FileName(p)| && FileName(p)[k] == c;
      assert p[start + k] == c;
    }
  }

  // ---------- comparison and search ----------

  /** The texts differ first at `i`, where `a` is smaller. */
  predicate LessAt(a: string, b: string, i: nat) {
    i < |a| && i < |b| && a[..i] == b[..i] && a[i] < b[i]
  }

  lemma LessAtShifts(a: string, b: string, i: nat)
    requires a != [] && b != [] && a[0] == b[0]
    ensures LessAt(a, b, i + 1) <==> LessAt(a[1..], b[1..], i)
  {
    if i < |a[1..]| && i < |b[1..]| {
      assert a[..i + 1] == [a[0]] + a[1..][..i] && b[..i + 1] == [b[0]] + b[1..][..i];
      assert a[1..][..i] == a[..i + 1][1..] && b[1..][..i] == b[..i + 1][1..];
    }
  }

  /** One text is before another when it is a proper beginning of it, or smaller where they differ. */
  lemma {:induction false} LexLessMeaning(a: string, b: string)
    ensures LexLess(a, b) <==> a < b || exists i: nat :: LessAt(a, b, i)
  {
    if a != [] && b != [] {
      assert LessAt(a, b, 0) <==> a[0] < b[0];
      if a[0] == b[0] {
        LexLessMeaning(a[1..], b[1..]);
        assert a == [a[0]] + a[1..] && b == [b[0]] + b[1..];
        if i: nat :| LessAt(a[1..], b[1..], i) { LessAtShifts(a, b, i); }
        if i: nat :| LessAt(a, b, i) { LessAtShifts(a, b, i - 1); }
      }
    }
  }

  /** A text contains another when it is some text before it, it, and some text behind it. */
  lemma ContainsMeaning(s: string, pat: string)
    ensures Contains(s, pat) <==> exists before, after :: s == before + pat + after
  {
    if i :| 0 <= i <= |s| && MatchAt(s, pat, i) {
      assert s == s[..i] + pat + s[i + |pat|..];
    }
    if before, after :| s == before + pat + after {
      assert MatchAt(s, pat, |before|);
    }
  }
}
