/**
 * Hotkey strings such as "Ctrl+Alt+K" (src/hotkey/mod.rs): their
 * normalisation for display, their parsing into flags and a key, and their
 * encodings as a GNOME accelerator and as a Windows hotkey word.
 */
module Hotkey {
  import opened Wrappers
  import opened Strings

  /** `ParsedHotkey`. */
  datatype ParsedHotkey = ParsedHotkey(ctrl: bool, alt: bool, shift: bool, key: char)

  // ----- segments ----------------------------------------------------------

  /** A '+'-separated segment as both parsers compare it: trimmed, then ASCII-lowercased. */
  function Lowered(part: string): string {
    AsciiLower(Trim(part))
  }

  /** What a segment means to the parsers. */
  datatype Segment = CtrlSeg | AltSeg | ShiftSeg | KeySeg(k: char) | Unsupported

  /**
   * The match of `parse_display`: the modifier names, any one-byte segment
   * as its ASCII-uppercased key, anything else (an empty segment included)
   * unsupported.
   */
  function Classify(part: string): Segment {
    ClassifyLowered(Lowered(part))
  }

  function ClassifyLowered(p: string): Segment {
    if p == "ctrl" || p == "control" then CtrlSeg
    else if p == "alt" then AltSeg
    else if p == "shift" then ShiftSeg
    else if IsOneByte(p) then KeySeg(AsciiUpperChar(p[0]))
    else Unsupported
  }

  /** A key segment is a single ASCII character, and its key is that character uppercased. */
  lemma KeySegmentIsAscii(part: string)
    requires Classify(part).KeySeg?
    ensures |Lowered(part)| == 1 && Lowered(part)[0] as int < 0x80
    ensures Classify(part).k == AsciiUpperChar(Lowered(part)[0]) && Classify(part).k as int < 0x80
  {
  }

  // ----- parse_display -----------------------------------------------------

  /** The loop state of `parse_display`. */
  datatype Flags = Flags(ctrl: bool, alt: bool, shift: bool, key: Option<char>)

  const NoFlags := Flags(false, false, false, None)

  /** The segment kind of every part. */
  function Classes(parts: seq<string>): (segs: seq<Segment>)
    ensures |segs| == |parts| && forall i :: 0 <= i < |parts| ==> segs[i] == Classify(parts[i])
  {
    seq(|parts|, i requires 0 <= i < |parts| => Classify(parts[i]))
  }

  /**
   * The loop of `parse_display` over the first parts, given their kinds:
   * it fails at the first unsupported part, naming it as written.
   */
  function ParseSegments(segs: seq<Segment>, parts: seq<string>): Result<Flags>
    requires |segs| == |parts|
    decreases |parts|
  {
    if parts == [] then Ok(NoFlags)
    else
      var n := |parts| - 1;
      match ParseSegments(segs[..n], parts[..n])
      case Err(e) => Err(e)
      case Ok(f) => Step(f, segs[n], parts[n])
  }

  /** One iteration of the loop: the segment's kind sets a flag or the key, or fails naming the part. */
  function Step(f: Flags, seg: Segment, part: string): Result<Flags> {
    match seg
    case CtrlSeg => Ok(f.(ctrl := true))
    case AltSeg => Ok(f.(alt := true))
    case ShiftSeg => Ok(f.(shift := true))
    case KeySeg(k) => Ok(f.(key := Some(k)))
    case Unsupported => Err("Unsupported key segment: " + part)
  }

  /** The loop over one more part is one more step. */
  lemma ParseSegmentsSnoc(segs: seq<Segment>, parts: seq<string>, i: nat)
    requires |segs| == |parts| && i < |parts| && ParseSegments(segs[..i], parts[..i]).Ok?
    ensures ParseSegments(segs[..i + 1], parts[..i + 1])
      == Step(ParseSegments(segs[..i], parts[..i]).value, segs[i], parts[i])
  {
    assert parts[..i + 1][..i] == parts[..i] && segs[..i + 1][..i] == segs[..i];
  }

  function ParseParts(parts: seq<string>): Result<Flags> {
    ParseSegments(Classes(parts), parts)
  }

  /** What `parse_display` returns. */
  function ParseDisplaySpec(display: string): Result<ParsedHotkey> {
    match ParseParts(Split(display, '+'))
    case Err(e) => Err(e)
    case Ok(f) =>
      if f.key.None? then Err("Missing key in hotkey")
      else Ok(ParsedHotkey(f.ctrl, f.alt, f.shift, f.key.value))
  }

  /** `parse_display`: the loop that sets the flags and the key, returning at the first bad segment. */
  method ParseDisplay(display: string) returns (r: Result<ParsedHotkey>)
    ensures r == ParseDisplaySpec(display)
  {
    var parts := Split(display, '+');
    ghost var segs := Classes(parts);
    var ctrl, alt, shift := false, false, false;
    var key: Option<char> := None;
    for i := 0 to |parts|
      invariant ParseSegments(segs[..i], parts[..i]) == Ok(Flags(ctrl, alt, shift, key))
    {
      var part := parts[i];
      ParseSegmentsSnoc(segs, parts, i);
      var p := Lowered(part);
      match ClassifyLowered(p)
      case CtrlSeg => ctrl := true;
      case AltSeg => alt := true;
      case ShiftSeg => shift := true;
      case KeySeg(ch) => key := Some(ch);
      case Unsupported =>
        r := Err("Unsupported key segment: " + part);
        ParseErrSticks(segs, parts, i + 1);
        assert segs[..|parts|] == segs && parts[..|parts|] == parts;
        return;
    }
    assert segs[..|parts|] == segs && parts[..|parts|] == parts;
    if key.None? {
      return Err("Missing key in hotkey");
    }
    return Ok(ParsedHotkey(ctrl, alt, shift, key.value));
  }

  /** Once the loop has failed on some prefix, it fails with the same message on the whole list. */
  lemma {:induction false} ParseErrSticks(segs: seq<Segment>, parts: seq<string>, n: nat)
    requires |segs| == |parts| && n <= |parts| && ParseSegments(segs[..n], parts[..n]).Err?
    ensures ParseSegments(segs, parts) == ParseSegments(segs[..n], parts[..n])
    decreases |parts| - n
  {
    if n < |parts| {
      assert parts[..n + 1][..n] == parts[..n] && segs[..n + 1][..n] == segs[..n];
      ParseErrSticks(segs, parts, n + 1);
    } else {
      assert parts[..n] == parts && segs[..n] == segs;
    }
  }

  /** `j` is the last key segment. */
  predicate LastKeyAt(segs: seq<Segment>, j: int) {
    0 <= j < |segs| && segs[j].KeySeg? && forall l :: j < l < |segs| ==> !segs[l].KeySeg?
  }

  /**
   * What the loop computes: with no unsupported part, each flag is set exactly
   * when its modifier occurs, and the key is that of the last key segment (none
   * when there is no key segment); otherwise it fails naming the first
   * unsupported part as written.
   */
  lemma {:induction false} ParseSegmentsMeaning(segs: seq<Segment>, parts: seq<string>)
    requires |segs| == |parts|
    ensures Unsupported !in segs ==> (
      && ParseSegments(segs, parts).Ok?
      && ParseSegments(segs, parts).value.ctrl == (CtrlSeg in segs)
      && ParseSegments(segs, parts).value.alt == (AltSeg in segs)
      && ParseSegments(segs, parts).value.shift == (ShiftSeg in segs)
      && (ParseSegments(segs, parts).value.key.None? <==> forall i :: 0 <= i < |segs| ==> !segs[i].KeySeg?)
      && (ParseSegments(segs, parts).value.key.Some? ==>
            exists j :: LastKeyAt(segs, j) && ParseSegments(segs, parts).value.key.value == segs[j].k))
    ensures Unsupported in segs ==> exists i :: (0 <= i < |segs| && segs[i] == Unsupported
      && Unsupported !in segs[..i] && ParseSegments(segs, parts) == Err("Unsupported key segment: " + parts[i]))
  {
    if Unsupported in segs {
      ParseErrFirst(segs, parts);
    } else {
      ParseOkFlags(segs, parts);
      ParseOkKey(segs, parts);
    }
  }

  lemma {:induction false} ParseOkFlags(segs: seq<Segment>, parts: seq<string>)
    requires |segs| == |parts| && Unsupported !in segs
    ensures ParseSegments(segs, parts).Ok?
    ensures ParseSegments(segs, parts).value.ctrl == (CtrlSeg in segs)
    ensures ParseSegments(segs, parts).value.alt == (AltSeg in segs)
    ensures ParseSegments(segs, parts).value.shift == (ShiftSeg in segs)
    ensures ParseSegments(segs, parts).value.key.None? <==> forall i :: 0 <= i < |segs| ==> !segs[i].KeySeg?
    decreases |parts|
  {
    if parts != [] {
      var n := |parts| - 1;
      var pre := segs[..n];
      InSnoc(segs);
      ParseOkFlags(pre, parts[..n]);
      var f := ParseSegments(pre, parts[..n]).value;
      assert ParseSegments(segs, parts) == Step(f, segs[n], parts[n]);
    }
  }

  lemma {:induction false} ParseOkKey(segs: seq<Segment>, parts: seq<string>)
    requires |segs| == |parts| && Unsupported !in segs
    ensures ParseSegments(segs, parts).Ok?
    ensures ParseSegments(segs, parts).value.key.Some? ==>
      exists j :: LastKeyAt(segs, j) && ParseSegments(segs, parts).value.key.value == segs[j].k
    decreases |parts|
  {
    if parts != [] {
      var n := |parts| - 1;
      var pre := segs[..n];
      SeqDropLast(segs);
      ParseOkKey(pre, parts[..n]);
      var f := ParseSegments(pre, parts[..n]).value;
      var g := ParseSegments(segs, parts).value;
      if g.key.Some? {
        if segs[n].KeySeg? {
          assert LastKeyAt(segs, n);
        } else {
          var j :| LastKeyAt(pre, j) && f.key.value == pre[j].k;
          assert LastKeyAt(segs, j);
        }
      }
    }
  }

  lemma {:induction false} ParseErrFirst(segs: seq<Segment>, parts: seq<string>)
    requires |segs| == |parts| && Unsupported in segs
    ensures exists i :: (0 <= i < |segs| && segs[i] == Unsupported
      && Unsupported !in segs[..i] && ParseSegments(segs, parts) == Err("Unsupported key segment: " + parts[i]))
    decreases |parts|
  {
    var n := |parts| - 1;
    var pre := segs[..n];
    InSnoc(segs);
    if Unsupported in pre {
      ParseErrFirst(pre, parts[..n]);
      var i :| 0 <= i < n && pre[i] == Unsupported && Unsupported !in pre[..i]
        && ParseSegments(pre, parts[..n]) == Err("Unsupported key segment: " + parts[..n][i]);
      PrefixOfPrefix(segs, n, i);
      assert parts[..n][i] == parts[i];
    } else {
      ParseOkFlags(pre, parts[..n]);
      assert segs[n] == Unsupported;
    }
  }

  /**
   * The flags depend only on which segment kinds occur: repeating a
   * modifier or reordering the segments leaves them as they are.
   */
  lemma FlagsDependOnKindsOnly(a: seq<string>, b: seq<string>)
    requires Unsupported !in Classes(a) && Unsupported !in Classes(b)
    requires forall s :: s in Classes(a) <==> s in Classes(b)
    ensures ParseParts(a).Ok? && ParseParts(b).Ok?
    ensures ParseParts(a).value.ctrl == ParseParts(b).value.ctrl
    ensures ParseParts(a).value.alt == ParseParts(b).value.alt
    ensures ParseParts(a).value.shift == ParseParts(b).value.shift
  {
    ParseSegmentsMeaning(Classes(a), a);
    ParseSegmentsMeaning(Classes(b), b);
  }

  /** The parse of parts that classify alike position by position agrees, up to the error message. */
  lemma {:induction false} ParseSegmentsAlike(segs: seq<Segment>, a: seq<string>, b: seq<string>)
    requires |segs| == |a| == |b|
    ensures ParseSegments(segs, a).Ok? == ParseSegments(segs, b).Ok?
    ensures ParseSegments(segs, a).Ok? ==> ParseSegments(segs, a).value == ParseSegments(segs, b).value
    decreases |a|
  {
    if a != [] {
      ParseSegmentsAlike(segs[..|a| - 1], a[..|a| - 1], b[..|b| - 1]);
    }
  }

  // ----- normalize_display -------------------------------------------------

  /** Uppercases the first character if it is ASCII (`get_mut(0..1)` fails on a wider one). */
  function Capitalize(l: string): (s: string)
    ensures |s| == |l|
    ensures forall i :: 0 <= i < |l| ==> s[i] == if i == 0 && l[0] as int < 0x80 then AsciiUpperChar(l[0]) else l[i]
  {
    if |l| > 0 && l[0] as int < 0x80 then [AsciiUpperChar(l[0])] + l[1..] else l
  }

  /** How `normalize_display` rewrites one segment. */
  function NormalizeSegment(part: string): string {
    NormalizeLowered(Lowered(part))
  }

  function NormalizeLowered(l: string): string {
    if l == "ctrl" || l == "control" then "Ctrl"
    else if l == "alt" then "Alt"
    else if l == "shift" then "Shift"
    else if IsOneByte(l) then AsciiUpper(l)
    else Capitalize(l)
  }

  function NormalizeSegments(parts: seq<string>): (r: seq<string>)
    ensures |r| == |parts| && forall i :: 0 <= i < |parts| ==> r[i] == NormalizeSegment(parts[i])
  {
    seq(|parts|, i requires 0 <= i < |parts| => NormalizeSegment(parts[i]))
  }

  /** `normalize_display`: every '+'-separated segment normalised, joined back with '+'. */
  function NormalizeDisplay(input: string): string {
    Join(NormalizeSegments(Split(input, '+')), "+")
  }

  /** A lowered segment is trimmed and already lowercase. */
  lemma LoweredIsNormal(part: string)
    ensures Trim(Lowered(part)) == Lowered(part)
    ensures AsciiLower(Lowered(part)) == Lowered(part)
    ensures Lowered(part) == [] || (!IsWhitespace(Lowered(part)[0]) && !IsWhitespace(Lowered(part)[|Lowered(part)| - 1]))
  {
    TrimAsciiLower(Trim(part));
    TrimIdempotent(part);
    LowerIdempotent(Trim(part));
    TrimIdentity(Lowered(part));
  }

  /** Uppercasing some characters of a lowercase string and then lowering it back gives it again. */
  lemma CaseRoundTrip(l: string, s: string)
    requires AsciiLower(l) == l && |s| == |l|
    requires forall i :: 0 <= i < |l| ==> s[i] == l[i] || s[i] == AsciiUpperChar(l[i])
    ensures AsciiLower(s) == l
  {
    MapCharsAt(l, AsciiLowerChar);
    MapCharsAt(s, AsciiLowerChar);
    forall i | 0 <= i < |l| ensures AsciiLower(s)[i] == l[i] {
      assert AsciiLowerChar(l[i]) == l[i];
      LowerOfUpper(l[i]);
    }
  }

  /** The three modifier names are normal already. */
  lemma ModifierNamesLowered()
    ensures Lowered("Ctrl") == "ctrl" && Lowered("Alt") == "alt" && Lowered("Shift") == "shift"
  {
    TrimIdentity("Ctrl");
    TrimIdentity("Alt");
    TrimIdentity("Shift");
  }

  /** Every normalised segment is the lowered segment with some characters uppercased, or a modifier name. */
  lemma NormalizeSegmentShape(part: string)
    ensures var l := Lowered(part); var s := NormalizeSegment(part);
      || (l == "ctrl" || l == "control" || l == "alt" || l == "shift")
      || (|s| == |l| && forall i :: 0 <= i < |l| ==> s[i] == l[i] || s[i] == AsciiUpperChar(l[i]))
  {
    var l := Lowered(part);
    MapCharsAt(l, AsciiUpperChar);
  }

  /** Apart from the modifiers, normalising a segment keeps its lowered form. */
  lemma NormalizeSegmentLowered(part: string)
    ensures var l := Lowered(part);
      !(l == "ctrl" || l == "control" || l == "alt" || l == "shift") ==> Lowered(NormalizeSegment(part)) == l
  {
    var l := Lowered(part);
    LoweredIsNormal(part);
    NormalizeSegmentShape(part);
    if !(l == "ctrl" || l == "control" || l == "alt" || l == "shift") {
      var s := NormalizeSegment(part);
      if s != [] {
        AsciiCaseKeepsWhitespace(l[0]);
        AsciiCaseKeepsWhitespace(l[|l| - 1]);
      }
      TrimIdentity(s);
      CaseRoundTrip(l, s);
    }
  }

  /** Normalising a segment never changes its meaning. */
  lemma ClassifyNormalized(part: string)
    ensures Classify(NormalizeSegment(part)) == Classify(part)
  {
    ModifierNamesLowered();
    NormalizeSegmentLowered(part);
  }

  /** Normalising a normalised segment changes nothing. */
  lemma NormalizeSegmentIdempotent(part: string)
    ensures NormalizeSegment(NormalizeSegment(part)) == NormalizeSegment(part)
  {
    ModifierNamesLowered();
    NormalizeSegmentLowered(part);
  }

  /** A segment without '+' stays without '+'. */
  lemma NormalizeSegmentNoPlus(part: string)
    requires '+' !in part
    ensures '+' !in NormalizeSegment(part)
  {
    var i, j := TrimIsInfix(part);
    var t := Trim(part);
    assert forall k :: 0 <= k < |t| ==> t[k] == part[i + k];
    var l := Lowered(part);
    MapCharsAt(t, AsciiLowerChar);
    NormalizeSegmentShape(part);
    if !(l == "ctrl" || l == "control" || l == "alt" || l == "shift") {
      var s := NormalizeSegment(part);
      forall k | 0 <= k < |s| ensures s[k] != '+' {
        assert l[k] == AsciiLowerChar(t[k]);
      }
    }
  }

  /** `normalize_display` keeps the number of '+'-separated segments, and their meaning one by one. */
  lemma NormalizeDisplaySegments(input: string)
    ensures Split(NormalizeDisplay(input), '+') == NormalizeSegments(Split(input, '+'))
    ensures |Split(NormalizeDisplay(input), '+')| == |Split(input, '+')|
  {
    var parts := Split(input, '+');
    forall i | 0 <= i < |parts| ensures '+' !in NormalizeSegments(parts)[i] {
      NormalizeSegmentNoPlus(parts[i]);
    }
    SplitJoin(NormalizeSegments(parts), '+');
  }

  lemma NormalizeDisplayIdempotent(input: string)
    ensures NormalizeDisplay(NormalizeDisplay(input)) == NormalizeDisplay(input)
  {
    NormalizeDisplaySegments(input);
    var n := NormalizeSegments(Split(input, '+'));
    forall i | 0 <= i < |n| ensures NormalizeSegments(n)[i] == n[i] {
      NormalizeSegmentIdempotent(Split(input, '+')[i]);
    }
    assert NormalizeSegments(n) == n;
  }

  /** A normalised segment has no surrounding whitespace, and is empty only for a blank segment. */
  lemma NormalizeSegmentUnpadded(part: string)
    ensures Unpadded(NormalizeSegment(part))
    ensures NormalizeSegment(part) == [] <==> Trim(part) == []
  {
    var l := Lowered(part);
    LoweredIsNormal(part);
    NormalizeSegmentShape(part);
    MapCharsAt(Trim(part), AsciiLowerChar);
    if !(l == "ctrl" || l == "control" || l == "alt" || l == "shift") && l != [] {
      AsciiCaseKeepsWhitespace(l[0]);
      AsciiCaseKeepsWhitespace(l[|l| - 1]);
    }
  }

  /** `normalize_display` yields no surrounding whitespace, and something for a non-blank input. */
  lemma NormalizeDisplayUnpadded(input: string)
    ensures Unpadded(NormalizeDisplay(input))
    ensures Trim(input) != [] ==> NormalizeDisplay(input) != []
  {
    var parts := Split(input, '+');
    var n := NormalizeSegments(parts);
    forall i | 0 <= i < |n| ensures Unpadded(n[i]) {
      NormalizeSegmentUnpadded(parts[i]);
    }
    JoinUnpadded(n, "+");
    if |parts| == 1 {
      assert Join(parts, "+") == parts[0];
      NormalizeSegmentUnpadded(parts[0]);
    }
  }

  /** A normalised hotkey parses as the original: it succeeds exactly when the original does, with the same value. */
  lemma NormalizeDisplayParses(input: string)
    ensures ParseDisplaySpec(NormalizeDisplay(input)).Ok? == ParseDisplaySpec(input).Ok?
    ensures ParseDisplaySpec(input).Ok? ==> ParseDisplaySpec(NormalizeDisplay(input)) == ParseDisplaySpec(input)
  {
    var parts := Split(input, '+');
    NormalizeDisplaySegments(input);
    ParseNormalizedParts(parts);
    ParseDisplayFromParts(NormalizeDisplay(input), input);
  }

  /** `parse_display` depends only on how the parse of the segments ends, up to the error message. */
  lemma ParseDisplayFromParts(x: string, y: string)
    requires ParseParts(Split(x, '+')).Ok? == ParseParts(Split(y, '+')).Ok?
    requires ParseParts(Split(y, '+')).Ok? ==> ParseParts(Split(x, '+')).value == ParseParts(Split(y, '+')).value
    ensures ParseDisplaySpec(x).Ok? == ParseDisplaySpec(y).Ok?
    ensures ParseDisplaySpec(y).Ok? ==> ParseDisplaySpec(x) == ParseDisplaySpec(y)
  {
  }

  lemma ParseNormalizedParts(parts: seq<string>)
    ensures ParseParts(NormalizeSegments(parts)).Ok? == ParseParts(parts).Ok?
    ensures ParseParts(parts).Ok? ==> ParseParts(NormalizeSegments(parts)).value == ParseParts(parts).value
  {
    var n := NormalizeSegments(parts);
    forall i | 0 <= i < |parts| ensures Classes(n)[i] == Classes(parts)[i] {
      ClassifyNormalized(parts[i]);
    }
    assert Classes(n) == Classes(parts);
    ParseSegmentsAlike(Classes(parts), n, parts);
  }

  // ----- GNOME accelerator -------------------------------------------------

  /** `tag` when `present`, nothing otherwise. */
  function Tag(present: bool, tag: string): string {
    if present then tag else ""
  }

  /** The accelerator `to_gnome_binding` builds: the set modifiers in a fixed order, then the key. */
  function GnomeBinding(hk: ParsedHotkey): string {
    Tag(hk.ctrl, "<Control>") + (Tag(hk.alt, "<Alt>") + (Tag(hk.shift, "<Shift>") + [hk.key]))
  }

  /** `to_gnome_binding`: pushes the modifier tags, then the key, onto an empty string. */
  method ToGnomeBinding(hk: ParsedHotkey) returns (s: string)
    ensures s == GnomeBinding(hk)
  {
    s := "";
    if hk.ctrl {
      s := s + "<Control>";
    }
    if hk.alt {
      s := s + "<Alt>";
    }
    if hk.shift {
      s := s + "<Shift>";
    }
    s := s + [hk.key];
  }

  /** Removes `tag` from the front of `s`, saying whether it was there. */
  function StripTag(s: string, tag: string): (bool, string) {
    if StartsWith(s, tag) then (true, s[|tag|..]) else (false, s)
  }

  /** Reads an accelerator of the form `to_gnome_binding` writes back into a hotkey. */
  function DecodeGnomeBinding(s: string): Option<ParsedHotkey> {
    var (ctrl, r1) := StripTag(s, "<Control>");
    var (alt, r2) := StripTag(r1, "<Alt>");
    var (shift, r3) := StripTag(r2, "<Shift>");
    if |r3| == 1 then Some(ParsedHotkey(ctrl, alt, shift, r3[0])) else None
  }

  lemma StripTagOf(present: bool, tag: string, rest: string)
    requires !StartsWith(rest, tag)
    ensures StripTag(Tag(present, tag) + rest, tag) == (present, rest)
  {
    if present {
      assert (tag + rest)[..|tag|] == tag;
      assert (tag + rest)[|tag|..] == rest;
    } else {
      assert Tag(present, tag) + rest == rest;
    }
  }

  /** A string that is too short, or differs from `p` at position `i`, does not start with `p`. */
  lemma DiffersAt(s: string, p: string, i: nat)
    requires i < |p| && (|s| < |p| || (i < |s| && s[i] != p[i]))
    ensures !StartsWith(s, p)
  {
    if |p| <= |s| {
      assert s[..|p|][i] == s[i];
    }
  }

  /** The accelerator can be read back, so it determines the hotkey. */
  lemma GnomeBindingDecodes(hk: ParsedHotkey)
    ensures DecodeGnomeBinding(GnomeBinding(hk)) == Some(hk)
  {
    var r3 := [hk.key];
    var r2 := Tag(hk.shift, "<Shift>") + r3;
    var r1 := Tag(hk.alt, "<Alt>") + r2;
    DiffersAt(r3, "<Shift>", 0);
    if hk.shift {
      assert r2[1] == 'S';
      DiffersAt(r2, "<Alt>", 1);
    } else {
      DiffersAt(r2, "<Alt>", 0);
    }
    if hk.alt {
      assert r1[1] == 'A';
      DiffersAt(r1, "<Control>", 1);
    } else if hk.shift {
      assert r1[1] == 'S';
      DiffersAt(r1, "<Control>", 1);
    } else {
      DiffersAt(r1, "<Control>", 0);
    }
    StripTagOf(hk.ctrl, "<Control>", r1);
    StripTagOf(hk.alt, "<Alt>", r2);
    StripTagOf(hk.shift, "<Shift>", r3);
  }

  lemma GnomeBindingInjective(a: ParsedHotkey, b: ParsedHotkey)
    requires GnomeBinding(a) == GnomeBinding(b)
    ensures a == b
  {
    GnomeBindingDecodes(a);
    GnomeBindingDecodes(b);
  }

  /** `to_gnome_binding_from_display`. */
  method ToGnomeBindingFromDisplay(display: string) returns (r: Result<string>)
    ensures ParseDisplaySpec(display).Err? ==> r == Err(ParseDisplaySpec(display).error)
    ensures ParseDisplaySpec(display).Ok? ==> r == Ok(GnomeBinding(ParseDisplaySpec(display).value))
  {
    var hk := ParseDisplay(display);
    if hk.Err? {
      return Err(hk.error);
    }
    var s := ToGnomeBinding(hk.value);
    return Ok(s);
  }

  // ----- Windows hotkey word -----------------------------------------------

  /** `char as u8`: the low eight bits of the code point. */
  function AsByte(c: char): bv8 {
    (c as int % 0x100) as bv8
  }

  /** The modifier byte of `to_windows_hotkey_word`: shift 0x01, ctrl 0x02, alt 0x04. */
  function ModifierByte(hk: ParsedHotkey): bv8 {
    (if hk.shift then 0x01 else 0) | (if hk.ctrl then 0x02 else 0) | (if hk.alt then 0x04 else 0)
  }

  /** The word: the modifier byte above the key byte. */
  function WindowsHotkeyWord(hk: ParsedHotkey): bv16 {
    ((ModifierByte(hk) as bv16) << 8) | (AsByte(hk.key) as bv16)
  }

  /** `to_windows_hotkey_word`: ORs the modifier bits into a byte, then places it above the key byte. */
  method ToWindowsHotkeyWord(hk: ParsedHotkey) returns (w: bv16)
    ensures w == WindowsHotkeyWord(hk)
  {
    var vk := AsByte(hk.key);
    var mods: bv8 := 0;
    if hk.shift {
      mods := mods | 0x01;
    }
    if hk.ctrl {
      mods := mods | 0x02;
    }
    if hk.alt {
      mods := mods | 0x04;
    }
    w := ((mods as bv16) << 8) | (vk as bv16);
  }

  /**
   * Reading the word back: the low byte is the key byte, each modifier is
   * one bit of the high byte, and the high byte never exceeds 7.
   */
  lemma WindowsWordDecodes(hk: ParsedHotkey)
    ensures WindowsHotkeyWord(hk) & 0xFF == AsByte(hk.key) as bv16
    ensures (WindowsHotkeyWord(hk) >> 8) & 0x01 != 0 <==> hk.shift
    ensures (WindowsHotkeyWord(hk) >> 8) & 0x02 != 0 <==> hk.ctrl
    ensures (WindowsHotkeyWord(hk) >> 8) & 0x04 != 0 <==> hk.alt
    ensures WindowsHotkeyWord(hk) >> 8 <= 7
  {
  }

  /** Two hotkeys whose keys agree in their low byte have the same word exactly when their flags agree. */
  lemma WindowsWordInjective(a: ParsedHotkey, b: ParsedHotkey)
    requires AsByte(a.key) == AsByte(b.key)
    ensures WindowsHotkeyWord(a) == WindowsHotkeyWord(b) <==> (a.ctrl == b.ctrl && a.alt == b.alt && a.shift == b.shift)
  {
    WindowsWordDecodes(a);
    WindowsWordDecodes(b);
  }

  /** `to_windows_hotkey_word_from_display`. */
  method ToWindowsHotkeyWordFromDisplay(display: string) returns (r: Result<bv16>)
    ensures ParseDisplaySpec(display).Err? ==> r == Err(ParseDisplaySpec(display).error)
    ensures ParseDisplaySpec(display).Ok? ==> r == Ok(WindowsHotkeyWord(ParseDisplaySpec(display).value))
  {
    var hk := ParseDisplay(display);
    if hk.Err? {
      return Err(hk.error);
    }
    var w := ToWindowsHotkeyWord(hk.value);
    return Ok(w);
  }

  // ----- the examples of src/hotkey/tests.rs --------------------------------

  lemma SplitCtrlAltK()
    ensures Split("Ctrl+Alt+K", '+') == ["Ctrl", "Alt", "K"]
  {
    JoinCtrlAltK();
    SplitJoin(["Ctrl", "Alt", "K"], '+');
  }

  lemma ClassesCtrlAltK()
    ensures Classes(["Ctrl", "Alt", "K"]) == [CtrlSeg, AltSeg, KeySeg('K')]
  {
    var parts := ["Ctrl", "Alt", "K"];
    ModifierNamesLowered();
    TrimIdentity("K");
    assert Classify("K") == KeySeg('K');
    SeqOfThree(Classes(parts), CtrlSeg, AltSeg, KeySeg('K'));
  }

  lemma ParsePartsCtrlAltK()
    ensures ParseParts(["Ctrl", "Alt", "K"]) == Ok(Flags(true, true, false, Some('K')))
  {
    var parts := ["Ctrl", "Alt", "K"];
    var segs := Classes(parts);
    ClassesCtrlAltK();
    assert segs[..0] == [] && parts[..0] == [];
    ParseSegmentsSnoc(segs, parts, 0);
    ParseSegmentsSnoc(segs, parts, 1);
    ParseSegmentsSnoc(segs, parts, 2);
    assert segs[..3] == segs && parts[..3] == parts;
  }

  lemma ParseCtrlAltK()
    ensures ParseDisplaySpec("Ctrl+Alt+K") == Ok(ParsedHotkey(true, true, false, 'K'))
  {
    var parts := Split("Ctrl+Alt+K", '+');
    SplitCtrlAltK();
    ParsePartsCtrlAltK();
    assert ParseParts(parts) == Ok(Flags(true, true, false, Some('K')));
  }

  lemma GnomeCtrlAltK()
    ensures GnomeBinding(ParsedHotkey(true, true, false, 'K')) == "<Control><Alt>K"
  {
  }

  lemma WindowsCtrlAltK()
    ensures WindowsHotkeyWord(ParsedHotkey(true, true, false, 'K')) == 0x064B
  {
    assert AsByte('K') == 0x4B;
    assert ModifierByte(ParsedHotkey(true, true, false, 'K')) == 0x06;
  }

  lemma NormalizeCtrlSegment()
    ensures NormalizeSegment("ctrl") == "Ctrl"
  {
    TrimIdentity("ctrl");
  }

  lemma NormalizeAltSegment()
    ensures NormalizeSegment("alt") == "Alt"
  {
    TrimIdentity("alt");
  }

  lemma NormalizeKSegment()
    ensures NormalizeSegment("k") == "K"
  {
    TrimIdentity("k");
  }

  lemma SplitLowerCtrlAltK()
    ensures Split("ctrl+alt+k", '+') == ["ctrl", "alt", "k"]
  {
    assert Join(["ctrl", "alt", "k"], "+") == "ctrl+alt+k";
    SplitJoin(["ctrl", "alt", "k"], '+');
  }

  lemma NormalizeSegmentsCtrlAltK()
    ensures NormalizeSegments(["ctrl", "alt", "k"]) == ["Ctrl", "Alt", "K"]
  {
    var parts := ["ctrl", "alt", "k"];
    NormalizeCtrlSegment();
    NormalizeAltSegment();
    NormalizeKSegment();
    SeqOfThree(NormalizeSegments(parts), "Ctrl", "Alt", "K");
  }

  lemma JoinCtrlAltK()
    ensures Join(["Ctrl", "Alt", "K"], "+") == "Ctrl+Alt+K"
  {
  }

  lemma NormalizeCtrlAltK()
    ensures NormalizeDisplay("ctrl+alt+k") == "Ctrl+Alt+K"
  {
    var parts := Split("ctrl+alt+k", '+');
    SplitLowerCtrlAltK();
    var normal := NormalizeSegments(parts);
    NormalizeSegmentsCtrlAltK();
    assert normal == ["Ctrl", "Alt", "K"];
    JoinCtrlAltK();
  }

  lemma NormalizeShiftSegment()
    ensures NormalizeSegment("Shift ") == "Shift"
  {
    assert Lowered("Shift ") == "shift" by { assert Trim("Shift ") == "Shift"; }
  }

  lemma NormalizeASegment()
    ensures NormalizeSegment(" a") == "A"
  {
    assert Lowered(" a") == "a" by { assert Trim(" a") == "a"; }
  }

  lemma SplitShiftA()
    ensures Split("Shift + a", '+') == ["Shift ", " a"]
  {
    assert Join(["Shift ", " a"], "+") == "Shift + a";
    SplitJoin(["Shift ", " a"], '+');
  }

  lemma NormalizeSegmentsShiftA()
    ensures NormalizeSegments(["Shift ", " a"]) == ["Shift", "A"]
  {
    NormalizeShiftSegment();
    NormalizeASegment();
  }

  lemma NormalizeShiftA()
    ensures NormalizeDisplay("Shift + a") == "Shift+A"
  {
    SplitShiftA();
    NormalizeSegmentsShiftA();
    JoinShiftA();
  }

  lemma JoinShiftA()
    ensures Join(["Shift", "A"], "+") == "Shift+A"
  {
    assert ["Shift", "A"][1..] == ["A"];
  }

  lemma SplitMetaK()
    ensures Split("Meta+K", '+') == ["Meta", "K"]
  {
    assert Join(["Meta", "K"], "+") == "Meta+K";
    SplitJoin(["Meta", "K"], '+');
  }

  lemma ClassifyMeta()
    ensures Classify("Meta") == Unsupported
  {
    TrimIdentity("Meta");
    assert Lowered("Meta") == "meta";
  }

  lemma ParsePartsMetaK()
    ensures ParseParts(["Meta", "K"]) == Err("Unsupported key segment: Meta")
  {
    var parts := ["Meta", "K"];
    var segs := Classes(parts);
    ClassifyMeta();
    ParseSegmentsSnoc(segs, parts, 0);
    assert segs[..0] == [] && parts[..0] == [];
    ParseErrSticks(segs, parts, 1);
  }

  /** "Meta+K" is rejected: "meta" is neither a modifier nor one byte. */
  lemma ParseMetaK()
    ensures ParseDisplaySpec("Meta+K") == Err("Unsupported key segment: Meta")
  {
    SplitMetaK();
    ParsePartsMetaK();
  }
}
