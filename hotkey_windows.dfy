/**
 * The hotkey parser of the Windows shortcut installer (`parse_hotkey` in
 * src/hotkey_windows.rs). It reads the same "Ctrl+Alt+K" strings as
 * `parse_display` but builds the shell-link hotkey word itself, with
 * Alt as 0x01 and Shift as 0x04: the opposite of `to_windows_hotkey_word`.
 * `IShellLink::SetHotkey`, which receives both words, reads its high byte
 * as the `HOTKEYF_*` flags (Shift 0x01, Ctrl 0x02, Alt 0x04), so the loop
 * is modelled over the bits it ORs in: as written, and corrected.
 */
module HotkeyWindows {
  import opened Wrappers
  import opened Strings
  import opened Hotkey

  /** Which bit of the modifier byte each modifier sets. */
  datatype ModifierBits = ModifierBits(ctrl: bv8, alt: bv8, shift: bv8)

  /** The bits `parse_hotkey` ORs in, those of `RegisterHotKey`'s `MOD_*` flags: Alt 0x01, Ctrl 0x02, Shift 0x04. */
  const ModBits := ModifierBits(0x02, 0x01, 0x04)

  /** The bits `SetHotkey` reads, the `HOTKEYF_*` flags `to_windows_hotkey_word` uses: Shift 0x01, Ctrl 0x02, Alt 0x04. */
  const HotkeyfBits := ModifierBits(0x02, 0x04, 0x01)

  /** The loop state of `parse_hotkey`: the modifier byte and the key so far. */
  datatype WinState = WinState(modifiers: bv8, key: Option<char>)

  const NoWinState := WinState(0, None)

  /** `split('+').map(|p| p.trim())`. */
  function TrimAll(parts: seq<string>): (r: seq<string>)
    ensures |r| == |parts| && forall i :: 0 <= i < |parts| ==> r[i] == Trim(parts[i])
  {
    seq(|parts|, i requires 0 <= i < |parts| => Trim(parts[i]))
  }

  /** One iteration: a modifier ORs in its bit, a key replaces the key. */
  function WinStep(bits: ModifierBits, st: WinState, seg: Segment, part: string): Result<WinState> {
    match seg
    case CtrlSeg => Ok(st.(modifiers := st.modifiers | bits.ctrl))
    case AltSeg => Ok(st.(modifiers := st.modifiers | bits.alt))
    case ShiftSeg => Ok(st.(modifiers := st.modifiers | bits.shift))
    case KeySeg(k) => Ok(st.(key := Some(k)))
    case Unsupported => Err("Unknown hotkey part: " + part)
  }

  /** The loop over the first parts, given their kinds; it stops at the first unknown part. */
  function WinSegments(bits: ModifierBits, segs: seq<Segment>, parts: seq<string>): Result<WinState>
    requires |segs| == |parts|
    decreases |parts|
  {
    if parts == [] then Ok(NoWinState)
    else
      var n := |parts| - 1;
      match WinSegments(bits, segs[..n], parts[..n])
      case Err(e) => Err(e)
      case Ok(st) => WinStep(bits, st, segs[n], parts[n])
  }

  lemma WinSegmentsSnoc(bits: ModifierBits, segs: seq<Segment>, parts: seq<string>, i: nat)
    requires |segs| == |parts| && i < |parts| && WinSegments(bits, segs[..i], parts[..i]).Ok?
    ensures WinSegments(bits, segs[..i + 1], parts[..i + 1])
      == WinStep(bits, WinSegments(bits, segs[..i], parts[..i]).value, segs[i], parts[i])
  {
    assert parts[..i + 1][..i] == parts[..i] && segs[..i + 1][..i] == segs[..i];
  }

  lemma {:induction false} WinErrSticks(bits: ModifierBits, segs: seq<Segment>, parts: seq<string>, n: nat)
    requires |segs| == |parts| && n <= |parts| && WinSegments(bits, segs[..n], parts[..n]).Err?
    ensures WinSegments(bits, segs, parts) == WinSegments(bits, segs[..n], parts[..n])
    decreases |parts| - n
  {
    if n < |parts| {
      assert parts[..n + 1][..n] == parts[..n] && segs[..n + 1][..n] == segs[..n];
      WinErrSticks(bits, segs, parts, n + 1);
    } else {
      assert parts[..n] == parts && segs[..n] == segs;
    }
  }

  /** The word `(modifiers << 8) | (key as u8)`. */
  function Word(modifiers: bv8, key: char): bv16 {
    ((modifiers as bv16) << 8) | (AsByte(key) as bv16)
  }

  /** A trimmed part is compared in lower case as it stands. */
  lemma LoweredTrimmed(raw: string)
    ensures Lowered(Trim(raw)) == AsciiLower(Trim(raw))
  {
    TrimIdempotent(raw);
  }

  /** What `parse_hotkey` returns when its loop ORs in the given bits. */
  function ParseHotkeyWith(bits: ModifierBits, hotkey: string): Result<bv16> {
    var parts := TrimAll(Split(hotkey, '+'));
    match WinSegments(bits, Classes(parts), parts)
    case Err(e) => Err(e)
    case Ok(st) =>
      if st.key.None? then Err("Missing key in hotkey")
      else Ok(Word(st.modifiers, st.key.value))
  }

  /** What `parse_hotkey` returns as written. */
  function ParseHotkeySpec(hotkey: string): Result<bv16> {
    ParseHotkeyWith(ModBits, hotkey)
  }

  /** What `parse_hotkey` returns with the bits `SetHotkey` reads. */
  function CorrectedParseHotkeySpec(hotkey: string): Result<bv16> {
    ParseHotkeyWith(HotkeyfBits, hotkey)
  }

  /**
   * `parse_hotkey`: trims the parts, then ORs modifier bits into a byte and
   * keeps the last key, returning at the first unknown part. Letters and
   * other keys are converted alike, by keeping the low byte of the character.
   */
  method ParseHotkey(hotkey: string) returns (r: Result<bv16>)
    ensures r == ParseHotkeySpec(hotkey)
  {
    var raw := Split(hotkey, '+');
    var parts := TrimAll(raw);
    var st := ScanParts(raw, parts);
    if st.Err? {
      return Err(st.error);
    }
    if st.value.key.None? {
      return Err("Missing key in hotkey");
    }
    var vkChar := st.value.key.value;
    var vkCode := AsByte(vkChar);
    r := Ok(((st.value.modifiers as bv16) << 8) | (vkCode as bv16));
  }

  /** The loop of `parse_hotkey` over the trimmed parts. */
  method ScanParts(raw: seq<string>, parts: seq<string>) returns (r: Result<WinState>)
    requires parts == TrimAll(raw)
    ensures r == WinSegments(ModBits, Classes(parts), parts)
  {
    ghost var segs := Classes(parts);
    var modifiers: bv8 := 0;
    var key: Option<char> := None;
    for i := 0 to |parts|
      invariant WinSegments(ModBits, segs[..i], parts[..i]) == Ok(WinState(modifiers, key))
    {
      var part := parts[i];
      WinSegmentsSnoc(ModBits, segs, parts, i);
      var p := AsciiLower(part);
      LoweredTrimmed(raw[i]);
      match ClassifyLowered(p)
      case CtrlSeg => modifiers := modifiers | 0x02;
      case AltSeg => modifiers := modifiers | 0x01;
      case ShiftSeg => modifiers := modifiers | 0x04;
      case KeySeg(ch) => key := Some(ch);
      case Unsupported =>
        r := Err("Unknown hotkey part: " + part);
        WinErrSticks(ModBits, segs, parts, i + 1);
        assert segs[..|parts|] == segs && parts[..|parts|] == parts;
        return;
    }
    assert segs[..|parts|] == segs && parts[..|parts|] == parts;
    r := Ok(WinState(modifiers, key));
  }

  // ----- agreement with parse_display ---------------------------------------

  /** The modifier byte the loop builds for given flags with the given bits. */
  function ModifiersWith(bits: ModifierBits, ctrl: bool, alt: bool, shift: bool): bv8 {
    (if alt then bits.alt else 0) | (if ctrl then bits.ctrl else 0) | (if shift then bits.shift else 0)
  }

  /** ORing in one modifier's bit sets that modifier's flag. */
  lemma ModifiersWithOr(bits: ModifierBits, ctrl: bool, alt: bool, shift: bool)
    requires bits == ModBits || bits == HotkeyfBits
    ensures ModifiersWith(bits, ctrl, alt, shift) | bits.ctrl == ModifiersWith(bits, true, alt, shift)
    ensures ModifiersWith(bits, ctrl, alt, shift) | bits.alt == ModifiersWith(bits, ctrl, true, shift)
    ensures ModifiersWith(bits, ctrl, alt, shift) | bits.shift == ModifiersWith(bits, ctrl, alt, true)
  {
    if bits == ModBits {
    } else {
    }
  }

  /** The modifier byte `parse_hotkey` builds for given flags: Alt 0x01, Ctrl 0x02, Shift 0x04. */
  function ShellLinkModifiers(ctrl: bool, alt: bool, shift: bool): bv8 {
    ModifiersWith(ModBits, ctrl, alt, shift)
  }

  /**
   * The two loops run in step over the same kinds: one fails exactly when
   * the other does, naming the same part; otherwise the modifier byte holds
   * exactly the flags' bits and the keys agree.
   */
  lemma {:induction false} WinSegmentsTracksFlags(bits: ModifierBits, segs: seq<Segment>, parts: seq<string>)
    requires bits == ModBits || bits == HotkeyfBits
    requires |segs| == |parts|
    ensures WinSegments(bits, segs, parts).Ok? == ParseSegments(segs, parts).Ok?
    ensures WinSegments(bits, segs, parts).Ok? ==>
      var f := ParseSegments(segs, parts).value;
      WinSegments(bits, segs, parts).value == WinState(ModifiersWith(bits, f.ctrl, f.alt, f.shift), f.key)
    ensures WinSegments(bits, segs, parts).Err? ==> exists i :: (0 <= i < |parts|
      && WinSegments(bits, segs, parts).error == "Unknown hotkey part: " + parts[i]
      && ParseSegments(segs, parts).error == "Unsupported key segment: " + parts[i])
    decreases |parts|
  {
    if parts != [] {
      var n := |parts| - 1;
      WinSegmentsTracksFlags(bits, segs[..n], parts[..n]);
      if WinSegments(bits, segs[..n], parts[..n]).Err? {
        var i :| 0 <= i < n
          && WinSegments(bits, segs[..n], parts[..n]).error == "Unknown hotkey part: " + parts[..n][i]
          && ParseSegments(segs[..n], parts[..n]).error == "Unsupported key segment: " + parts[..n][i];
        assert parts[..n][i] == parts[i];
      } else if segs[n] == Unsupported {
        assert WinSegments(bits, segs, parts).error == "Unknown hotkey part: " + parts[n];
      } else {
        var f := ParseSegments(segs[..n], parts[..n]).value;
        ModifiersWithOr(bits, f.ctrl, f.alt, f.shift);
      }
    }
  }

  /** Classifying a trimmed part is classifying the part. */
  lemma ClassesTrimAll(parts: seq<string>)
    ensures Classes(TrimAll(parts)) == Classes(parts)
  {
    forall i | 0 <= i < |parts| ensures Classes(TrimAll(parts))[i] == Classes(parts)[i] {
      TrimIdempotent(parts[i]);
    }
  }

  /** With either set of bits, the loop accepts exactly what `parse_display` accepts, with the same flags and key. */
  lemma ParseHotkeyWithAgrees(bits: ModifierBits, hotkey: string)
    requires bits == ModBits || bits == HotkeyfBits
    ensures ParseHotkeyWith(bits, hotkey).Ok? == ParseDisplaySpec(hotkey).Ok?
    ensures ParseDisplaySpec(hotkey).Ok? ==> var hk := ParseDisplaySpec(hotkey).value;
      ParseHotkeyWith(bits, hotkey) == Ok(Word(ModifiersWith(bits, hk.ctrl, hk.alt, hk.shift), hk.key))
  {
    var raw := Split(hotkey, '+');
    var parts := TrimAll(raw);
    ClassesTrimAll(raw);
    var segs := Classes(raw);
    ParseSegmentsAlike(segs, raw, parts);
    WinSegmentsTracksFlags(bits, segs, parts);
  }

  /**
   * `parse_hotkey` accepts exactly what `parse_display` accepts, and then
   * returns the word with Alt in bit 0 and Shift in bit 2 of the high byte.
   */
  lemma ParseHotkeyAgrees(hotkey: string)
    ensures ParseHotkeySpec(hotkey).Ok? == ParseDisplaySpec(hotkey).Ok?
    ensures ParseDisplaySpec(hotkey).Ok? ==> var hk := ParseDisplaySpec(hotkey).value;
      ParseHotkeySpec(hotkey) == Ok(Word(ShellLinkModifiers(hk.ctrl, hk.alt, hk.shift), hk.key))
  {
    ParseHotkeyWithAgrees(ModBits, hotkey);
  }

  /**
   * With the `HOTKEYF_*` bits, `parse_hotkey` accepts exactly what
   * `parse_display` accepts and returns the `to_windows_hotkey_word` word.
   */
  lemma CorrectedParseHotkeyAgrees(hotkey: string)
    ensures CorrectedParseHotkeySpec(hotkey).Ok? == ParseDisplaySpec(hotkey).Ok?
    ensures ParseDisplaySpec(hotkey).Ok? ==>
      CorrectedParseHotkeySpec(hotkey) == Ok(WindowsHotkeyWord(ParseDisplaySpec(hotkey).value))
  {
    ParseHotkeyWithAgrees(HotkeyfBits, hotkey);
    if ParseDisplaySpec(hotkey).Ok? {
      var hk := ParseDisplaySpec(hotkey).value;
      assert ModifiersWith(HotkeyfBits, hk.ctrl, hk.alt, hk.shift) == ModifierByte(hk);
    }
  }

  /**
   * The two Windows encoders give the same word exactly when Alt and Shift
   * are both set or both clear; with only one of them they differ.
   */
  lemma EncodersAgreeIffAltEqualsShift(hk: ParsedHotkey)
    ensures Word(ShellLinkModifiers(hk.ctrl, hk.alt, hk.shift), hk.key) == WindowsHotkeyWord(hk)
      <==> hk.alt == hk.shift
  {
    var a := Word(ShellLinkModifiers(hk.ctrl, hk.alt, hk.shift), hk.key);
    var b := WindowsHotkeyWord(hk);
    assert (a >> 8) & 0x01 != 0 <==> hk.alt;
    assert (b >> 8) & 0x01 != 0 <==> hk.shift;
    if hk.alt == hk.shift {
      assert ShellLinkModifiers(hk.ctrl, hk.alt, hk.shift) == ModifierByte(hk);
    }
  }

  /** For the same input, `parse_hotkey` and `to_windows_hotkey_word_from_display` agree exactly when Alt and Shift go together. */
  lemma ParseHotkeyVersusDisplayWord(hotkey: string)
    requires ParseDisplaySpec(hotkey).Ok?
    ensures var hk := ParseDisplaySpec(hotkey).value;
      ParseHotkeySpec(hotkey) == Ok(WindowsHotkeyWord(hk)) <==> hk.alt == hk.shift
  {
    ParseHotkeyAgrees(hotkey);
    EncodersAgreeIffAltEqualsShift(ParseDisplaySpec(hotkey).value);
  }

  /** Reading the shell-link word back: the key byte below, Alt, Ctrl and Shift as bits 0, 1 and 2 above. */
  lemma WordDecodes(ctrl: bool, alt: bool, shift: bool, key: char)
    ensures var w := Word(ShellLinkModifiers(ctrl, alt, shift), key);
      && w & 0xFF == AsByte(key) as bv16
      && ((w >> 8) & 0x01 != 0 <==> alt)
      && ((w >> 8) & 0x02 != 0 <==> ctrl)
      && ((w >> 8) & 0x04 != 0 <==> shift)
      && w >> 8 <= 7
  {
  }

  /**
   * "Ctrl+Alt+K" becomes 0x034B here, where `to_windows_hotkey_word` gives
   * 0x064B; read as `HOTKEYF_*` flags, 0x03 is Ctrl+Shift, not Ctrl+Alt.
   */
  lemma ParseHotkeyCtrlAltK()
    ensures ParseHotkeySpec("Ctrl+Alt+K") == Ok(0x034B)
    ensures (0x034B as bv16 >> 8) & HotkeyfBits.shift as bv16 != 0
    ensures (0x034B as bv16 >> 8) & HotkeyfBits.alt as bv16 == 0
  {
    ParseCtrlAltK();
    ParseHotkeyAgrees("Ctrl+Alt+K");
    WindowsCtrlAltK();
  }

  /** The corrected parser gives "Ctrl+Alt+K" the word 0x064B of the hotkey tests. */
  lemma CorrectedParseHotkeyCtrlAltK()
    ensures CorrectedParseHotkeySpec("Ctrl+Alt+K") == Ok(0x064B)
  {
    ParseCtrlAltK();
    CorrectedParseHotkeyAgrees("Ctrl+Alt+K");
    WindowsCtrlAltK();
  }
}
