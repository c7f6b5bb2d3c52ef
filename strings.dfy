/**
 * The parts of Rust's `char` and `str` API that the program relies on:
 * character classes, ASCII case mapping, `trim`, `split`, `join`,
 * `starts_with`/`contains`, the UTF-8 byte length behind `str::len`, and
 * the decimal rendering of `usize::to_string`.
 *
 * A Rust `String` is a sequence of Unicode scalar values, which is exactly
 * Dafny's `string` (`seq<char>`).
 */
module Strings {

  // ----- character classes -------------------------------------------------

  /** `char::is_whitespace`: the Unicode White_Space property. */
  predicate IsWhitespace(c: char) {
    var n := c as int;
    (0x09 <= n <= 0x0D) || n == 0x20 || n == 0x85 || n == 0xA0 || n == 0x1680
    || (0x2000 <= n <= 0x200A) || n == 0x2028 || n == 0x2029 || n == 0x202F
    || n == 0x205F || n == 0x3000
  }

  /** `char::is_ascii_punctuation`: the 32 ASCII punctuation and symbol characters. */
  predicate IsAsciiPunctuation(c: char) {
    var n := c as int;
    (0x21 <= n <= 0x2F) || (0x3A <= n <= 0x40) || (0x5B <= n <= 0x60) || (0x7B <= n <= 0x7E)
  }

  /** `char::is_control`: general category Cc. */
  predicate IsControl(c: char) {
    var n := c as int;
    n <= 0x1F || (0x7F <= n <= 0x9F)
  }

  predicate IsAsciiUpperLetter(c: char) { 'A' <= c <= 'Z' }

  predicate IsAsciiLowerLetter(c: char) { 'a' <= c <= 'z' }

  /** `char::to_ascii_lowercase`. */
  function AsciiLowerChar(c: char): (r: char)
    ensures IsAsciiUpperLetter(c) ==> r as int == c as int + 32
    ensures !IsAsciiUpperLetter(c) ==> r == c
  {
    if IsAsciiUpperLetter(c) then (c as int + 32) as char else c
  }

  /** `char::to_ascii_uppercase`. */
  function AsciiUpperChar(c: char): (r: char)
    ensures IsAsciiLowerLetter(c) ==> r as int == c as int - 32
    ensures !IsAsciiLowerLetter(c) ==> r == c
  {
    if IsAsciiLowerLetter(c) then (c as int - 32) as char else c
  }

  /** Applies a character mapping to every character (`chars().map(f).collect()`). */
  function MapChars(s: string, f: char -> char): string
    decreases |s|
  {
    if s == [] then [] else [f(s[0])] + MapChars(s[1..], f)
  }

  /** MapChars keeps the length and maps position by position. */
  lemma {:induction false} MapCharsAt(s: string, f: char -> char)
    ensures |MapChars(s, f)| == |s|
    ensures forall i :: 0 <= i < |s| ==> MapChars(s, f)[i] == f(s[i])
    decreases |s|
  {
    if s != [] {
      MapCharsAt(s[1..], f);
      forall i | 0 < i < |s| ensures MapChars(s, f)[i] == f(s[i]) {
        assert s[1..][i - 1] == s[i];
      }
    }
  }

  /** `str::to_ascii_lowercase`. */
  function AsciiLower(s: string): string {
    MapChars(s, AsciiLowerChar)
  }

  /** `str::to_ascii_uppercase`. */
  function AsciiUpper(s: string): string {
    MapChars(s, AsciiUpperChar)
  }

  lemma AsciiCaseKeepsWhitespace(c: char)
    ensures IsWhitespace(AsciiLowerChar(c)) == IsWhitespace(c)
    ensures IsWhitespace(AsciiUpperChar(c)) == IsWhitespace(c)
  {
  }

  /** Upper-casing a character and then lower-casing it gives its lower-case form. */
  lemma LowerOfUpper(c: char)
    ensures AsciiLowerChar(AsciiUpperChar(c)) == AsciiLowerChar(c)
  {
  }

  lemma LowerIdempotent(s: string)
    ensures AsciiLower(AsciiLower(s)) == AsciiLower(s)
  {
    var l := AsciiLower(s);
    MapCharsAt(s, AsciiLowerChar);
    MapCharsAt(l, AsciiLowerChar);
    assert AsciiLower(l) == l;
  }

  // ----- trim --------------------------------------------------------------

  /** `str::trim_start`: drops the leading white space. */
  function TrimStart(s: string): string
    decreases |s|
  {
    if |s| > 0 && IsWhitespace(s[0]) then TrimStart(s[1..]) else s
  }

  /** `str::trim_end`: drops the trailing white space. */
  function TrimEnd(s: string): string
    decreases |s|
  {
    if |s| > 0 && IsWhitespace(s[|s| - 1]) then TrimEnd(s[..|s| - 1]) else s
  }

  /** `str::trim`. */
  function Trim(s: string): string {
    TrimEnd(TrimStart(s))
  }

  /** TrimStart keeps a suffix that does not start with white space, and drops only white space. */
  lemma {:induction false} TrimStartFacts(s: string)
    ensures |TrimStart(s)| <= |s| && TrimStart(s) == s[|s| - |TrimStart(s)|..]
    ensures TrimStart(s) == [] || !IsWhitespace(TrimStart(s)[0])
    ensures forall i :: 0 <= i < |s| - |TrimStart(s)| ==> IsWhitespace(s[i])
    decreases |s|
  {
    if |s| > 0 && IsWhitespace(s[0]) {
      TrimStartFacts(s[1..]);
      var r := TrimStart(s);
      forall i | 0 <= i < |s| - |r| ensures IsWhitespace(s[i]) {
        if i > 0 { assert s[i] == s[1..][i - 1]; }
      }
    }
  }

  /** TrimEnd keeps a prefix that does not end with white space, and drops only white space. */
  lemma {:induction false} TrimEndFacts(s: string)
    ensures |TrimEnd(s)| <= |s| && TrimEnd(s) == s[..|TrimEnd(s)|]
    ensures TrimEnd(s) == [] || !IsWhitespace(TrimEnd(s)[|TrimEnd(s)| - 1])
    ensures forall i :: |TrimEnd(s)| <= i < |s| ==> IsWhitespace(s[i])
    decreases |s|
  {
    if |s| > 0 && IsWhitespace(s[|s| - 1]) {
      TrimEndFacts(s[..|s| - 1]);
      var r := TrimEnd(s);
      forall i | |r| <= i < |s| ensures IsWhitespace(s[i]) {
        if i < |s| - 1 { assert s[i] == s[..|s| - 1][i]; }
      }
    }
  }

  lemma SliceOfSuffix<T>(s: seq<T>, i: nat, n: nat)
    requires i + n <= |s|
    ensures s[i..][..n] == s[i..i + n]
  {
  }

  /** Trim(s) is s with some white space cut off each end, and its own ends are not white space. */
  lemma TrimIsInfix(s: string) returns (i: nat, j: nat)
    ensures i <= j <= |s| && Trim(s) == s[i..j]
    ensures forall k :: 0 <= k < i ==> IsWhitespace(s[k])
    ensures forall k :: j <= k < |s| ==> IsWhitespace(s[k])
    ensures Trim(s) == [] || (!IsWhitespace(Trim(s)[0]) && !IsWhitespace(Trim(s)[|Trim(s)| - 1]))
  {
    var t := TrimStart(s);
    TrimStartFacts(s);
    i := |s| - |t|;
    var u := TrimEnd(t);
    TrimEndFacts(t);
    j := i + |u|;
    SliceOfSuffix(s, i, |u|);
    WhitespaceTail(s, i, |u|);
    assert u == [] || u[0] == t[0];
  }

  /** White space after position `n` of the suffix from `i` is white space after `i + n` in the string. */
  lemma WhitespaceTail(s: string, i: nat, n: nat)
    requires i + n <= |s| && forall k :: n <= k < |s| - i ==> IsWhitespace(s[i..][k])
    ensures forall k :: i + n <= k < |s| ==> IsWhitespace(s[k])
  {
    forall k | i + n <= k < |s| ensures IsWhitespace(s[k]) {
      assert s[k] == s[i..][k - i];
    }
  }

  /** A string is its own trim exactly when neither end is white space. */
  lemma TrimIdentity(s: string)
    ensures Trim(s) == s <==> (s == [] || (!IsWhitespace(s[0]) && !IsWhitespace(s[|s| - 1])))
  {
    var i, j := TrimIsInfix(s);
  }

  /** A first character that is not white space stays first. */
  lemma TrimKeepsFirst(s: string)
    requires s != [] && !IsWhitespace(s[0])
    ensures Trim(s) != [] && Trim(s)[0] == s[0]
  {
    TrimEndFacts(s);
  }

  /** A last character that is not white space stays last. */
  lemma TrimKeepsLast(s: string)
    requires s != [] && !IsWhitespace(s[|s| - 1])
    ensures Trim(s) != [] && Trim(s)[|Trim(s)| - 1] == s[|s| - 1]
  {
    TrimStartFacts(s);
    var ts := TrimStart(s);
    assert ts != [] && ts[|ts| - 1] == s[|s| - 1];
  }

  /** A character missing from a string is missing from its trimmed form. */
  lemma TrimKeepsAbsent(s: string, c: char)
    requires c !in s
    ensures c !in Trim(s)
  {
    var i, j := TrimIsInfix(s);
  }

  lemma TrimIdempotent(s: string)
    ensures Trim(Trim(s)) == Trim(s)
  {
    var i, j := TrimIsInfix(s);
    TrimIdentity(Trim(s));
  }

  /** A character mapping that never moves a character into or out of White_Space. */
  ghost predicate KeepsWhitespace(f: char -> char) {
    forall c :: IsWhitespace(f(c)) == IsWhitespace(c)
  }

  lemma {:induction false} TrimStartMapChars(s: string, f: char -> char)
    requires KeepsWhitespace(f)
    ensures TrimStart(MapChars(s, f)) == MapChars(TrimStart(s), f)
    decreases |s|
  {
    if |s| > 0 && IsWhitespace(s[0]) {
      assert MapChars(s, f)[1..] == MapChars(s[1..], f);
      TrimStartMapChars(s[1..], f);
    }
  }

  lemma {:induction false} TrimEndMapChars(s: string, f: char -> char)
    requires KeepsWhitespace(f)
    ensures TrimEnd(MapChars(s, f)) == MapChars(TrimEnd(s), f)
    decreases |s|
  {
    var m := MapChars(s, f);
    if |s| > 0 {
      MapCharsAt(s, f);
      var p := s[..|s| - 1];
      MapCharsAt(p, f);
      assert m[..|s| - 1] == MapChars(p, f);
      if IsWhitespace(s[|s| - 1]) {
        TrimEndMapChars(p, f);
      }
    }
  }

  /** ASCII case mapping and trimming commute: case mapping never touches white space. */
  lemma TrimAsciiLower(s: string)
    ensures Trim(AsciiLower(s)) == AsciiLower(Trim(s))
  {
    forall c ensures IsWhitespace(AsciiLowerChar(c)) == IsWhitespace(c) {
      AsciiCaseKeepsWhitespace(c);
    }
    TrimStartMapChars(s, AsciiLowerChar);
    TrimEndMapChars(TrimStart(s), AsciiLowerChar);
  }

  lemma TrimAsciiUpper(s: string)
    ensures Trim(AsciiUpper(s)) == AsciiUpper(Trim(s))
  {
    forall c ensures IsWhitespace(AsciiUpperChar(c)) == IsWhitespace(c) {
      AsciiCaseKeepsWhitespace(c);
    }
    TrimStartMapChars(s, AsciiUpperChar);
    TrimEndMapChars(TrimStart(s), AsciiUpperChar);
  }

  // ----- split and join ----------------------------------------------------

  /** The position of the first `d` in `s` (`str::find`). */
  function IndexOf(s: string, d: char): (i: nat)
    requires d in s
    ensures i < |s| && s[i] == d && d !in s[..i]
  {
    if s[0] == d then 0 else IndexOf(s[1..], d) + 1
  }

  /** `slice.join(sep)`. */
  function Join(parts: seq<string>, sep: string): string
    decreases |parts|
  {
    if |parts| == 0 then []
    else if |parts| == 1 then parts[0]
    else parts[0] + sep + Join(parts[1..], sep)
  }

  /**
   * `str::split(d)` for a single-character separator: the pieces between the
   * occurrences of `d`, so that `n` separators give `n + 1` pieces (an empty
   * string gives one empty piece). Joining the pieces back gives `s`.
   */
  function Split(s: string, d: char): (parts: seq<string>)
    ensures |parts| >= 1
    ensures forall i :: 0 <= i < |parts| ==> d !in parts[i]
    ensures Join(parts, [d]) == s
    decreases |s|
  {
    if d in s then
      var i := IndexOf(s, d);
      var rest := Split(s[i + 1..], d);
      assert s == s[..i] + [d] + s[i + 1..];
      [s[..i]] + rest
    else
      [s]
  }

  lemma {:induction false} IndexOfAfter(a: string, d: char, b: string)
    requires d !in a
    ensures d in a + [d] + b && IndexOf(a + [d] + b, d) == |a|
    decreases |a|
  {
    var s := a + [d] + b;
    assert s[|a|] == d;
    if a != [] {
      assert s[1..] == a[1..] + [d] + b;
      IndexOfAfter(a[1..], d, b);
    }
  }

  /** Splitting a join on a separator that no piece contains gives the pieces back. */
  lemma {:induction false} SplitJoin(parts: seq<string>, d: char)
    requires |parts| >= 1
    requires forall i :: 0 <= i < |parts| ==> d !in parts[i]
    ensures Split(Join(parts, [d]), d) == parts
    decreases |parts|
  {
    if |parts| == 1 {
      assert Join(parts, [d]) == parts[0];
    } else {
      var tail := Join(parts[1..], [d]);
      var s := parts[0] + [d] + tail;
      assert Join(parts, [d]) == s;
      IndexOfAfter(parts[0], d, tail);
      assert s[..|parts[0]|] == parts[0];
      assert s[|parts[0]| + 1..] == tail;
      SplitJoin(parts[1..], d);
      assert Split(s, d) == [parts[0]] + Split(tail, d);
      assert parts == [parts[0]] + parts[1..];
    }
  }

  /** `s` is empty or neither starts nor ends with whitespace. */
  predicate Unpadded(s: string) {
    s == [] || (!IsWhitespace(s[0]) && !IsWhitespace(s[|s| - 1]))
  }

  /** Joining unpadded pieces with a non-empty unpadded separator gives an unpadded string. */
  lemma {:induction false} JoinUnpadded(parts: seq<string>, sep: string)
    requires sep != [] && Unpadded(sep)
    requires forall i :: 0 <= i < |parts| ==> Unpadded(parts[i])
    ensures Unpadded(Join(parts, sep))
    ensures |parts| >= 2 ==> |Join(parts, sep)| >= |sep|
    decreases |parts|
  {
    if |parts| >= 2 {
      var rest := Join(parts[1..], sep);
      JoinUnpadded(parts[1..], sep);
      var j := parts[0] + sep + rest;
      assert Join(parts, sep) == j;
      assert j[0] == if parts[0] == [] then sep[0] else parts[0][0];
      assert j[|j| - 1] == if rest == [] then sep[|sep| - 1] else rest[|rest| - 1];
    }
  }

  /** The line terminator `\n`, with a `\r` before it, removed from a line. */
  function StripCr(line: string): string {
    if line != [] && line[|line| - 1] == '\r' then line[..|line| - 1] else line
  }

  /**
   * `str::lines()`: the pieces ending at each `\n` (which is dropped, with a
   * `\r` just before it), and a final piece without `\n` if non-empty.
   */
  function Lines(s: string): seq<string>
    decreases |s|
  {
    if s == [] then []
    else if '\n' in s then
      var i := IndexOf(s, '\n');
      [StripCr(s[..i])] + Lines(s[i + 1..])
    else [s]
  }

  /** The text of lines, each followed by `\n`. */
  function Unlines(lines: seq<string>): string {
    if lines == [] then [] else lines[0] + "\n" + Unlines(lines[1..])
  }

  /** Lines without line breaks, none ending in `\r`, come back from their text one by one, before the lines of what follows. */
  lemma {:induction false} LinesAfterUnlines(lines: seq<string>, s: string)
    requires forall i :: 0 <= i < |lines| ==> IsLine(lines[i])
    ensures Lines(Unlines(lines) + s) == lines + Lines(s)
  {
    if lines != [] {
      var l := lines[0];
      var rest := Unlines(lines[1..]) + s;
      assert Unlines(lines) + s == l + ['\n'] + rest by {
        assert Unlines(lines) == l + "\n" + Unlines(lines[1..]);
      }
      LinesCons(l, rest);
      LinesAfterUnlines(lines[1..], s);
      assert Lines(rest) == lines[1..] + Lines(s);
      SeqConsAppend(lines, Lines(s));
      assert Lines(Unlines(lines) + s) == [l] + Lines(rest);
    } else {
      assert Unlines(lines) + s == s;
    }
  }

  lemma SeqConsAppend<T>(a: seq<T>, b: seq<T>)
    requires a != []
    ensures [a[0]] + (a[1..] + b) == a + b
  {
    assert a == [a[0]] + a[1..];
  }

  lemma SeqOfThree<T>(r: seq<T>, a: T, b: T, c: T)
    requires |r| == 3 && r[0] == a && r[1] == b && r[2] == c
    ensures r == [a, b, c]
  {
  }

  lemma PrefixOfPrefix<T>(a: seq<T>, n: nat, i: nat)
    requires i <= n <= |a|
    ensures a[..n][..i] == a[..i]
  {
  }

  lemma InSnoc<T>(a: seq<T>)
    requires a != []
    ensures forall x :: x in a <==> x in a[..|a| - 1] || x == a[|a| - 1]
  {
    SeqDropLast(a);
  }

  lemma SeqDropLast<T>(a: seq<T>)
    requires a != []
    ensures a[..|a| - 1] + [a[|a| - 1]] == a
  {
  }

  /** A line as `lines()` gives it back: no line break inside, no `\r` at the end. */
  predicate IsLine(l: string) {
    '\n' !in l && StripCr(l) == l
  }

  /** A line and its `\n` come back as the first line. */
  lemma LinesCons(l: string, rest: string)
    requires IsLine(l)
    ensures Lines(l + ['\n'] + rest) == [l] + Lines(rest)
  {
    var t := l + ['\n'] + rest;
    IndexOfAfter(l, '\n', rest);
    assert t[..|l|] == l;
    assert t[|l| + 1..] == rest;
  }

  lemma LinesUnlines(lines: seq<string>)
    requires forall i :: 0 <= i < |lines| ==> IsLine(lines[i])
    ensures Lines(Unlines(lines)) == lines
  {
    LinesAfterUnlines(lines, []);
    assert Unlines(lines) + [] == Unlines(lines);
  }

  /** No line holds a line break. */
  lemma {:induction false} LinesNoNewline(s: string)
    ensures forall i :: 0 <= i < |Lines(s)| ==> '\n' !in Lines(s)[i]
    decreases |s|
  {
    if s != [] && '\n' in s {
      var i := IndexOf(s, '\n');
      LinesNoNewline(s[i + 1..]);
      var l := s[..i];
      assert '\n' !in StripCr(l) by {
        assert StripCr(l) == l || StripCr(l) == l[..|l| - 1];
      }
    }
  }

  lemma {:induction false} UnlinesAppend(a: seq<string>, b: seq<string>)
    ensures Unlines(a + b) == Unlines(a) + Unlines(b)
  {
    if a != [] {
      assert (a + b)[1..] == a[1..] + b;
      UnlinesAppend(a[1..], b);
    } else {
      assert a + b == b;
    }
  }

  /** Stripping `\r` never matters once the line is trimmed. */
  lemma TrimStripCr(line: string)
    ensures Trim(StripCr(line)) == Trim(line)
  {
    if line != [] && line[|line| - 1] == '\r' {
      var l := line[..|line| - 1];
      assert line == l + ['\r'];
      TrimStartSnocSpace(l, '\r');
      var ts := TrimStart(l);
      if ts != [] {
        assert (ts + ['\r'])[..|ts|] == ts;
      }
    }
  }

  /** White space added at the end survives `trim_start` unless everything was white space. */
  lemma {:induction false} TrimStartSnocSpace(l: string, c: char)
    requires IsWhitespace(c)
    ensures TrimStart(l + [c]) == if TrimStart(l) == [] then [] else TrimStart(l) + [c]
    decreases |l|
  {
    if l == [] {
      assert TrimStart([c]) == TrimStart([c][1..]);
    } else if IsWhitespace(l[0]) {
      assert (l + [c])[1..] == l[1..] + [c];
      TrimStartSnocSpace(l[1..], c);
    }
  }

  // ----- prefixes and substrings ------------------------------------------

  /** `str::starts_with`. */
  predicate StartsWith(s: string, p: string) {
    |p| <= |s| && s[..|p|] == p
  }

  /** `str::starts_with` for a character pattern. */
  predicate StartsWithChar(s: string, c: char) {
    s != [] && s[0] == c
  }

  /** `str::ends_with` for a character pattern. */
  predicate EndsWithChar(s: string, c: char) {
    s != [] && s[|s| - 1] == c
  }

  /** `str::ends_with`. */
  predicate EndsWith(s: string, p: string) {
    |p| <= |s| && s[|s| - |p|..] == p
  }

  /** `str::contains` for a string pattern. */
  predicate Contains(s: string, sub: string)
    decreases |s|
  {
    StartsWith(s, sub) || (|s| > 0 && Contains(s[1..], sub))
  }

  // ----- byte length -------------------------------------------------------

  /** The number of bytes UTF-8 uses for `c` (`char::len_utf8`). */
  function Utf8Len(c: char): nat {
    var n := c as int;
    if n < 0x80 then 1 else if n < 0x800 then 2 else if n < 0x1_0000 then 3 else 4
  }

  /** `str::len`: the UTF-8 byte length of a string. */
  function ByteLen(s: string): nat
    decreases |s|
  {
    if s == [] then 0 else Utf8Len(s[0]) + ByteLen(s[1..])
  }

  /** `s.len() == 1`, stated without the byte count: a single ASCII character (see ByteLenOne). */
  predicate IsOneByte(s: string) {
    |s| == 1 && s[0] as int < 0x80
  }

  /** A string is one byte long exactly when it is a single ASCII character. */
  lemma ByteLenOne(s: string)
    ensures ByteLen(s) == 1 <==> IsOneByte(s)
  {
    if |s| >= 2 {
      assert ByteLen(s) >= Utf8Len(s[0]) + Utf8Len(s[1]);
    }
  }

  // ----- decimal numbers ---------------------------------------------------

  predicate IsDigit(c: char) { '0' <= c <= '9' }

  /** The number a string of decimal digits denotes. */
  function DecimalValue(s: string): nat
    requires forall i :: 0 <= i < |s| ==> IsDigit(s[i])
    decreases |s|
  {
    if s == [] then 0
    else
      assert IsDigit(s[|s| - 1]);
      DecimalValue(s[..|s| - 1]) * 10 + (s[|s| - 1] as int - '0' as int)
  }

  /** `usize::to_string`: decimal digits, no leading zero; reading them back gives `n`. */
  function NatToDecimal(n: nat): (r: string)
    ensures |r| >= 1 && (r[0] == '0' ==> r == "0")
    ensures forall i :: 0 <= i < |r| ==> IsDigit(r[i])
    ensures DecimalValue(r) == n
    decreases n
  {
    var last := ('0' as int + n % 10) as char;
    if n < 10 then [last]
    else
      var r := NatToDecimal(n / 10) + [last];
      assert r[..|r| - 1] == NatToDecimal(n / 10);
      r
  }

  /** Distinct numbers have distinct decimal renderings. */
  lemma NatToDecimalInjective(m: nat, n: nat)
    requires NatToDecimal(m) == NatToDecimal(n)
    ensures m == n
  {
    assert DecimalValue(NatToDecimal(m)) == m;
  }
}
