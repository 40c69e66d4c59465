/**
 The first hexadecimal number of a loader-snaps line (`extract_first_hex_u32`, src/main.rs). The
 scanner counts bytes and slices text, so that it may cut a character in two, and then panics.
 */
module HexScan {
  import opened Wrappers

  function HexDigit(c: char): Option<nat> {
    if '0' <= c <= '9' then Some(c as nat - '0' as nat)
    else if 'a' <= c <= 'f' then Some(c as nat - 'a' as nat + 10)
    else if 'A' <= c <= 'F' then Some(c as nat - 'A' as nat + 10)
    else None
  }

  function HexValue(s: string, acc: nat): Option<nat> {
    if s == [] then Some(acc)
    else
      var digit :- HexDigit(s[0]);
      HexValue(s[1..], 16 * acc + digit)
  }

  /** The number of bytes of a character in UTF-8. */
  function Width(c: char): (n: nat)
    ensures 1 <= n <= 4
  {
    if c as int < 0x80 then 1 else if c as int < 0x800 then 2 else if c as int < 0x1_0000 then 3 else 4
  }

  function ByteLen(s: string): nat {
    if s == [] then 0 else Width(s[0]) + ByteLen(s[1..])
  }

  /** How many characters the first `n` bytes hold; None when byte `n` is inside a character. */
  function CharsIn(s: string, n: nat): (r: Option<nat>)
    ensures r.Some? ==> r.value <= |s| && r.value <= n
    decreases s
  {
    if n == 0 then Some(0)
    else if s == [] || Width(s[0]) > n then None
    else
      var k :- CharsIn(s[1..], n - Width(s[0]));
      Some(k + 1)
  }

  datatype Scan = Panics | Scanned(value: Option<nat>)

  predicate HexPrefix(s: string) {
    |s| >= 2 && s[0] == '0' && s[1] == 'x'
  }

  /** `extract_first_hex_u32`: where "0x" stands, a slice of the eight bytes behind it is taken,
      which panics when it ends inside a character. */
  function ScanHex(text: string): Scan {
    if ByteLen(text) < 10 then Scanned(None)
    else if !HexPrefix(text) then ScanHex(text[1..])
    else
      match CharsIn(text[2..], 8)
      case None => Panics
      case Some(k) =>
        if HexValue(text[2..2 + k], 0).Some? then Scanned(HexValue(text[2..2 + k], 0)) else ScanHex(text[1..])
  }

  /** The loop, over the positions of characters: no other byte is a "0". */
  method ExtractFirstHex(text: string) returns (r: Scan)
    ensures r == ScanHex(text)
  {
    assert text[0..] == text;
    var i := 0;
    while ByteLen(text[i..]) >= 10
      invariant i <= |text| && ScanHex(text[i..]) == ScanHex(text)
      decreases |text| - i
    {
      var rest := text[i..];
      assert rest[1..] == text[i + 1..];
      if HexPrefix(rest) {
        var count := CharsIn(rest[2..], 8);
        if count.None? {
          return Panics;
        }
        var value := HexValue(rest[2..2 + count.value], 0);
        if value.Some? {
          return Scanned(value);
        }
      }
      i := i + 1;
    }
    return Scanned(None);
  }

  /** The first "0x" that eight hexadecimal digits follow. */
  function FirstHex(text: string): Option<nat> {
    if |text| < 10 then None
    else if HexPrefix(text) && HexValue(text[2..10], 0).Some? then HexValue(text[2..10], 0)
    else FirstHex(text[1..])
  }

  predicate HexAt(text: string, i: nat) {
    i + 10 <= |text| && HexPrefix(text[i..]) && HexValue(text[i + 2..i + 10], 0).Some?
  }

  /** A "0x" at `i`, with eight bytes behind it that end inside a character. */
  predicate CutAt(text: string, i: nat) {
    i + 2 <= |text| && HexPrefix(text[i..]) && ByteLen(text[i..]) >= 10 && CharsIn(text[i + 2..], 8).None?
  }

  lemma {:induction false} HexIsNarrow(s: string, n: nat, acc: nat)
    requires n <= |s| && HexValue(s[..n], acc).Some?
    ensures CharsIn(s, n) == Some(n)
    decreases n
  {
    if n > 0 {
      assert s[..n][1..] == s[1..][..n - 1];
      HexIsNarrow(s[1..], n - 1, 16 * acc + HexDigit(s[0]).value);
    }
  }

  lemma {:induction false} NarrowIsHex(s: string, n: nat, acc: nat)
    requires CharsIn(s, n).Some? && HexValue(s[..CharsIn(s, n).value], acc).Some?
    ensures CharsIn(s, n) == Some(n)
    decreases n
  {
    if n > 0 {
      var k := CharsIn(s, n).value;
      assert s[..k][1..] == s[1..][..k - 1];
      NarrowIsHex(s[1..], n - Width(s[0]), 16 * acc + HexDigit(s[0]).value);
    }
  }

  /** A slice of eight bytes is hexadecimal exactly when eight characters are. */
  lemma SlicesAgree(text: string)
    requires HexPrefix(text) && CharsIn(text[2..], 8).Some?
    ensures var k := CharsIn(text[2..], 8).value;
            && (HexValue(text[2..2 + k], 0).Some? <==> HexAt(text, 0))
            && (HexAt(text, 0) ==> k == 8)
  {
    var k := CharsIn(text[2..], 8).value;
    assert text[2..2 + k] == text[2..][..k] && text[0..] == text;
    if HexValue(text[2..2 + k], 0).Some? { NarrowIsHex(text[2..], 8, 0); }
    if HexAt(text, 0) {
      assert text[2..10] == text[2..][..8];
      HexIsNarrow(text[2..], 8, 0);
    }
  }

  lemma {:induction false} NoShorterThanChars(s: string)
    ensures |s| <= ByteLen(s)
  {
    if s != [] { NoShorterThanChars(s[1..]); }
  }

  lemma {:induction false} SuffixIsShorter(s: string, i: nat)
    requires i <= |s|
    ensures ByteLen(s[i..]) <= ByteLen(s)
  {
    if i > 0 {
      assert s[i..] == s[1..][i - 1..];
      SuffixIsShorter(s[1..], i - 1);
    } else {
      assert s[0..] == s;
    }
  }

  lemma ShiftedAt(text: string, i: nat)
    requires text != [] && i > 0
    ensures HexAt(text, i) <==> HexAt(text[1..], i - 1)
    ensures CutAt(text, i) <==> CutAt(text[1..], i - 1)
  {
    if i <= |text| { assert text[1..][i - 1..] == text[i..]; }
    if i + 2 <= |text| { assert text[1..][i + 1..] == text[i + 2..]; }
    if i + 10 <= |text| { assert text[1..][i + 1..i + 9] == text[i + 2..i + 10]; }
  }

  /** A cut that no earlier number keeps the scan from. */
  ghost predicate CutFirst(text: string, i: nat) {
    CutAt(text, i) && forall j: nat :: j < i ==> !HexAt(text, j)
  }

  lemma CutFirstShifts(text: string)
    requires text != [] && !CutAt(text, 0) && !HexAt(text, 0)
    ensures (exists i: nat :: CutFirst(text, i)) <==> exists i: nat :: CutFirst(text[1..], i)
  {
    forall i: nat | i > 0 { ShiftedAt(text, i); }
    if i: nat :| CutFirst(text, i) {
      forall j: nat | j < i - 1 ensures !HexAt(text[1..], j) { ShiftedAt(text, j + 1); }
      assert CutFirst(text[1..], i - 1);
    }
    if i: nat :| CutFirst(text[1..], i) {
      ShiftedAt(text, i + 1);
      assert CutFirst(text, i + 1);
    }
  }

  lemma ShortScan(text: string)
    requires ByteLen(text) < 10
    ensures FirstHex(text).None? && forall i: nat :: !CutFirst(text, i)
  {
    NoShorterThanChars(text);
    forall i: nat | i <= |text| ensures ByteLen(text[i..]) < 10 { SuffixIsShorter(text, i); }
  }

  lemma HitScan(text: string)
    requires ByteLen(text) >= 10 && HexAt(text, 0)
    ensures ScanHex(text) == Scanned(FirstHex(text)) && !CutAt(text, 0)
  {
    assert text[0..] == text;
    assert text[2..10] == text[2..][..8];
    HexIsNarrow(text[2..], 8, 0);
    SlicesAgree(text);
  }

  lemma MissScan(text: string)
    requires ByteLen(text) >= 10 && !HexAt(text, 0) && !CutAt(text, 0)
    ensures text != [] && ScanHex(text) == ScanHex(text[1..]) && FirstHex(text) == FirstHex(text[1..])
  {
    assert text[0..] == text;
    if HexPrefix(text) { SlicesAgree(text); }
  }

  /** The scan panics exactly when the eight bytes behind some "0x" end inside a character and no
      number stands before it; otherwise it finds the first number. */
  lemma {:induction false} ScanHexMeaning(text: string)
    ensures ScanHex(text).Panics? <==> exists i: nat :: CutFirst(text, i)
    ensures ScanHex(text).Scanned? ==> ScanHex(text).value == FirstHex(text)
  {
    if ByteLen(text) < 10 {
      ShortScan(text);
    } else if HexAt(text, 0) {
      HitScan(text);
    } else if CutAt(text, 0) {
      assert text[0..] == text;
      assert CutFirst(text, 0);
    } else {
      MissScan(text);
      ScanHexMeaning(text[1..]);
      CutFirstShifts(text);
    }
  }

  /** The first number stands at `i`, and is `value`. */
  ghost predicate FirstHexAt(text: string, i: nat, value: Option<nat>) {
    && HexAt(text, i) && HexValue(text[i + 2..i + 10], 0) == value
    && forall j: nat :: j < i ==> !HexAt(text, j)
  }

  lemma FirstHexShifts(text: string, i: nat, value: Option<nat>)
    requires text != [] && !HexAt(text, 0) && FirstHexAt(text[1..], i, value)
    ensures FirstHexAt(text, i + 1, value)
  {
    ShiftedAt(text, i + 1);
    assert text[1..][i + 2..i + 10] == text[i + 3..i + 11];
    forall j: nat | j < i + 1 ensures !HexAt(text, j) {
      if j > 0 { ShiftedAt(text, j); }
    }
  }

  lemma NoHexShifts(text: string, i: nat)
    requires text != [] && !HexAt(text, 0) && forall j: nat :: !HexAt(text[1..], j)
    ensures !HexAt(text, i)
  {
    if i > 0 { ShiftedAt(text, i); }
  }

  lemma {:induction false} FirstHexMeaning(text: string)
    ensures FirstHex(text).None? ==> forall i: nat :: !HexAt(text, i)
    ensures FirstHex(text).Some? ==> exists i: nat :: FirstHexAt(text, i, FirstHex(text))
  {
    if |text| >= 10 {
      assert text[0..] == text;
      if HexAt(text, 0) {
        assert FirstHexAt(text, 0, FirstHex(text));
      } else {
        FirstHexMeaning(text[1..]);
        if FirstHex(text).Some? {
          var i: nat :| FirstHexAt(text[1..], i, FirstHex(text));
          FirstHexShifts(text, i, FirstHex(text));
        } else {
          forall i: nat ensures !HexAt(text, i) { NoHexShifts(text, i); }
        }
      }
    }
  }

  /** A text of one-byte characters is safe. */
  lemma AsciiIsSafe(text: string)
    requires forall i :: 0 <= i < |text| ==> text[i] as int < 0x80
    ensures ScanHex(text) == Scanned(FirstHex(text))
  {
    ScanHexMeaning(text);
    if i: nat :| CutFirst(text, i) {
      AsciiLength(text[i..]);
      AsciiChars(text[i + 2..], 8);
      assert false;
    }
  }

  lemma {:induction false} AsciiChars(s: string, n: nat)
    requires n <= |s| && forall i :: 0 <= i < |s| ==> s[i] as int < 0x80
    ensures CharsIn(s, n) == Some(n)
    decreases n
  {
    if n > 0 { AsciiChars(s[1..], n - 1); }
  }

  lemma {:induction false} AsciiLength(s: string)
    requires forall i :: 0 <= i < |s| ==> s[i] as int < 0x80
    ensures ByteLen(s) == |s|
  {
    if s != [] { AsciiLength(s[1..]); }
  }

  /** A status whose last digit is a letter of two bytes. */
  lemma CutStatusPanics()
    ensures ScanHex("0x1234567\U{E9}").Panics?
  {
  }
}
