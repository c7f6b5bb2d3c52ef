# keyboard_map_shift in Dafny

keyboard_map_shift re-types text that was typed with the wrong keyboard
layout active. It takes the highlighted text and finds the layout that best
explains it. It then maps every character back to the key that produced it,
emits what the next layout in the rotation gives for that key, and replaces
the selection with the result. Around that engine sit the following parts:
- a hotkey-string parser. It serialises to a GNOME accelerator and to a
  Windows shell-link hotkey word.
- the editor for KDE's `kglobalshortcutsrc`. It loads an INI file, sets the
  shortcut entries and saves the file again.
- small classification rules: which Linux desktop is running, which
  layouts are right-to-left, which layouts the installed locales select,
  and how a key table is read from the operating system.

This project models that core and proves what it does.

| file | module | what it models |
|---|---|---|
| `wrappers.dfy` | `Wrappers` | `Option`, `Result` and `Unit` |
| `strings.dfy` | `Strings` | `trim`, ASCII case mapping, `split`/`join`, `lines`, `contains`, byte length, decimal rendering |
| `ordered_maps.dfy` | `OrderedMaps` | `BTreeMap<String, _>` as a strictly sorted association list |
| `layouts.dfy` | `Layouts` | `KeyboardLayout`, `LayoutMap`, and the iteration order of a `HashMap` |
| `remap.rs` → `remap.dfy` | `Remap` | direction hint, coverage score, inverse tables, best-layout choice, re-typing |
| `lib.rs` → `app.dfy` | `App` | the shift action with its rotation, and `HotkeySpec::from_display` |
| `hotkey/mod.rs` → `hotkey.dfy` | `Hotkey` | `normalize_display`, `parse_display`, the GNOME and Windows encoders |
| `hotkey_windows.rs` → `hotkey_windows.dfy` | `HotkeyWindows` | `parse_hotkey` and how it relates to `parse_display` |
| `platform/linux/kde.rs` → `kde.dfy` | `Kde` | the `Ini` object, `load_ini`, `ini_set`, `save_ini`, `apply_kde_binding` |
| `kde_format.dfy` | `KdeFormat` | what loading and saving preserve: the save/load round trip and its conditions |
| `platform/linux/mod.rs` → `linux_platform.dfy` | `LinuxPlatform` | `detect_de`, `apply_hotkey`, `remove_hotkey` |
| `keyboard_mapping/windows.rs` → `windows_mapping.dfy` | `WindowsMapping` | the LANGID rule, handle→layout, `get_layout`/`list_layouts`, the key-table loop |
| `keyboard_mapping/keyboard_mapping.rs` → `linux_mapping.dfy` | `LinuxMapping` | `is_rtl_char`, the locale→layout-name rule, `get_layout`, `list_layouts`, the key-table loop |

## How the environment is represented

The program reads from the operating system in many places. Each such read
is an input here:
- **The highlighted text.** An `Option<string>`.
- **The layout tables.** A `seq<LayoutMap>`.
- **The selection sink.** A function from the replacement text to its
  result.
- **The environment variables.** `Option<string>` values.
- **The compiled xkb keymap.** The layout names plus a function from
  layout and key code to the key's text.
- **The Windows layout handles.** A sequence of 64-bit values.
- **The Win32 key translation.** Three functions of the virtual key: its
  scan code, the number of UTF-16 units written, and the text.
- **The `locale -a` output and the registry layout names.** A string and
  a sequence of names.
- **The contents of `kglobalshortcutsrc`.** An `Option<string>`, where
  `None` stands for an unreadable file.
- **The result of the GNOME and KDE bindings.** Functions of the display
  string.

Two program properties the model leaves unspecified are parameters:
- **HashMap iteration order.** The key lists of the inverse table are
  filled in the iteration order of a `HashMap`, which Rust does not fix.
  Every operation that iterates a key table takes that order as a
  parameter `order`, which lists each key exactly once (`Layouts.Enumerates`).
  So `first()` of a key list is the first key in that order that produces
  the character.
- **The Unicode Bidi_Class test.** `remap.rs` decides "right-to-left" from
  the Bidi_Class property (classes R and AL of Unicode Standard Annex #9).
  That table is the predicate parameter `isRtl`.

Strings are sequences of Unicode scalar values, as Rust's `char` is. A
`len() == 1` test is a byte-length test: `Strings.IsOneByte` holds for one
character below U+0080. Scores are unbounded integers. A coverage score is
at most twice the text's length and the direction bonus at most 5, so for
text shorter than 2^30 − 2 characters (`Remap.MaxScoredText`) every score
fits in an `i32`: 2·(2^30 − 3) + 5 = 2^31 − 1. `Remap.ScoreAboveSentinel`
proves that bound. The lemmas that compare scores with the `i32::MIN`
sentinel require it. A text of 2^30 − 1 recognised characters would make
the `i32` addition of the bonus overflow in the program.

Two observations about the code:
- **The two Windows encoders swap Alt and Shift.** `to_windows_hotkey_word`
  (src/hotkey/mod.rs:83-96, no comment) puts Shift in bit 0 and Alt in bit 2
  of the high byte. `parse_hotkey` does the reverse. Its comment
  (src/hotkey_windows.rs:129-131) says the word is for `IShellLink::SetHotkey`,
  yet it lists the `MOD_*` values of `RegisterHotKey`. Both words go to
  `IShellLink::SetHotkey` (src/hotkey_windows.rs:41,
  src/platform/windows/mod.rs:44-45). That call reads the high byte as
  `HOTKEYF_SHIFT` 0x01, `HOTKEYF_CONTROL` 0x02, `HOTKEYF_ALT` 0x04, and
  src/hotkey/tests.rs:30-34 pins that layout (0x064B for "Ctrl+Alt+K").
  `HotkeyWindows.EncodersAgreeIffAltEqualsShift` proves the two words are
  equal exactly when Alt and Shift are both set or both clear. This is
  listed under "## Findings".
- **The "No next layout found" error never occurs.** In
  `shift_highlighted_text_to_next_layout` a recognised layout is always
  found again in the rotation. `App.ReplacesWithShiftedText` proves the
  sink is always reached.

## Model

| member | source | states |
|---|---|---|
| Strings.Split | src/hotkey/mod.rs:10 | `split` gives at least one part, no part contains the separator, and joining the parts with it gives the input back |
| Strings.TrimIsInfix | src/platform/linux/kde.rs:70 | `trim` gives a contiguous piece of the input; everything cut off on either side is white space, and the result neither starts nor ends with white space |
| Strings.ByteLenOne | src/hotkey/mod.rs:46 | a string is one byte long in UTF-8 exactly when it is a single character below U+0080 |
| OrderedMaps.FindPut | src/platform/linux/kde.rs:81 | after `insert(k, v)` the map holds `v` under `k` and every other key holds what it held before |
| OrderedMaps.PutSorted | src/platform/linux/kde.rs:90-92 | inserting keeps the keys strictly ascending, so each key occurs once |
| Remap.DirectionHint | src/keyboard_mapping/remap.rs:9-17 | None exactly when every character is white space or ASCII punctuation; otherwise the RTL verdict of the first character that is neither, whatever kind of character it is |
| Remap.TextStartsRtl | src/keyboard_mapping/remap.rs:9-17 | the early-return loop returns the direction hint |
| Remap.LeadingDigitDecides | src/keyboard_mapping/remap.rs:10-14 | a text that starts with a digit takes its hint from that digit, not from a later letter |
| Remap.DirectionBonus | src/keyboard_mapping/remap.rs:19-27 | +5 for an RTL hint with an RTL layout, +3 for an LTR hint with an LTR layout, −2 for either mismatch, 0 without a hint |
| Remap.MatchesAndMisses | src/keyboard_mapping/remap.rs:29-44 | matches plus misses is the number of non-control characters; the score is 2·matches − misses = 3·matches − non-control count; matches ≤ non-control count ≤ length; the score is at least −length |
| Remap.MatchCountPositive | src/keyboard_mapping/remap.rs:32-38 | the match count is positive exactly when some non-control character is a key of the inverse table |
| Remap.CoverageScore | src/keyboard_mapping/remap.rs:29-44 | the loop returns the match count, and the score 2·matches − misses, over the inverse table's characters |
| Remap.InverseMapSnoc | src/keyboard_mapping/remap.rs:114-123 | visiting one more key appends it to its character's list when its glyph is one character, creating the list if needed, and changes nothing else |
| Remap.KeysProducingFirst | src/keyboard_mapping/remap.rs:114-123 | the first key in a character's list is the first key in the iteration order whose glyph is exactly that character |
| Remap.InverseMapMeaning | src/keyboard_mapping/remap.rs:112-126 | the inverse table's characters are exactly the one-character glyphs; every list is non-empty; a key is in the list of `c` exactly when its glyph is the string "c" (empty and longer glyphs are dropped) |
| Remap.InvertLayoutMap | src/keyboard_mapping/remap.rs:112-126 | the loop over the key table in its iteration order builds the inverse table |
| Remap.InvertLayoutMaps | src/keyboard_mapping/remap.rs:129-131 | one inverse table per layout, in the layouts' order |
| Remap.Scan | src/keyboard_mapping/remap.rs:55-69 | the running best is the initial one (no index, `i32::MIN`, 0 matches) or an index already visited, carrying that layout's own score and match count |
| Remap.MatchLayout | src/keyboard_mapping/remap.rs:71-74 | a layout it returns is in range and recognises at least one character of the text |
| Remap.GetTextLayoutMap | src/keyboard_mapping/remap.rs:46-75 | the selection loop, with the inverse tables built first, returns what `MatchLayout` specifies |
| Remap.ScoreAboveSentinel | src/keyboard_mapping/remap.rs:56-63 | every layout's score lies above the initial `i32::MIN` and at most `i32::MAX`, so adding the bonus does not overflow and the first layout always replaces the initial best |
| Remap.ScanIsBest | src/keyboard_mapping/remap.rs:59-69 | after visiting n > 0 layouts the best is set; no visited layout strictly improves on it (greater score, or equal score and more matches), and it strictly improves on every earlier layout, so a full tie goes to the earliest |
| Remap.MatchLayoutIsBest | src/keyboard_mapping/remap.rs:46-75 | None exactly when there are no layouts or every top-scoring layout has no match; otherwise the result has matches, no layout strictly improves on it, and it strictly improves on every earlier layout |
| Remap.UnrecognisedTextIsUndetermined | src/keyboard_mapping/remap.rs:71-73 | when no non-control character of the text is a one-character glyph of any layout, no layout is chosen |
| Remap.ReverseText | src/keyboard_mapping/remap.rs:106-108 | the reversal has the same length and holds at position i the character at position length−1−i |
| Remap.ReverseTextInvolution | src/keyboard_mapping/remap.rs:106-108 | reversing twice gives the text back |
| Remap.SubstituteChar | src/keyboard_mapping/remap.rs:83-94 | the replacement of one character; Remap.SubstituteCharMeaning states it |
| Remap.SubstituteCharMeaning | src/keyboard_mapping/remap.rs:83-94 | a character that is no key's one-character glyph is kept; otherwise the first key in the iteration order producing it is found, and the character becomes the target's glyph string for that key, or stays itself when the target has no glyph or an empty glyph there |
| Remap.SubstituteSelf | src/keyboard_mapping/remap.rs:83-94 | re-typing through a table's own inverse into the same table leaves every character as it was |
| Remap.ShiftTextLanguage | src/keyboard_mapping/remap.rs:77-102 | `shift_text_language` substitutes each character through the current layout's inverse table and reverses the result when the directions differ; Remap.ShiftPositions, Remap.ShiftKeepsLength and Remap.ShiftToSameLayout state what it does |
| Remap.ShiftKeepsLength | src/keyboard_mapping/remap.rs:83-99 | the result has as many characters as the text when every target glyph has at most one character |
| Remap.ShiftPositions | src/keyboard_mapping/remap.rs:83-99 | with one-character target glyphs, position i of the result is the substitute of character i when the directions agree, and of character length−1−i when they differ |
| Remap.ShiftToSameLayout | src/keyboard_mapping/remap.rs:82-99 | shifting a text from a layout to itself returns the text unchanged |
| Remap.InverseMapOfTwo | src/keyboard_mapping/remap.rs:112-126 | two keys with different one-character glyphs invert to a table with one single-key list per glyph |
| Remap.RussianToEnglish | src/keyboard_mapping/remap.rs:77-102 | "фы" typed on the Russian layout (keys 30 and 31) becomes "as" on the English one |
| Remap.EnglishToHebrew | src/keyboard_mapping/remap.rs:77-102 | "as" becomes "שד" on the Hebrew layout and is then reversed, because the directions differ |
| App.SkipWhileOther | src/lib.rs:28-29 | `skip_while` from position k stops at the first position at or after k whose layout has the name |
| App.NextLayout | src/lib.rs:26-31 | no next layout exactly when there are no layouts; otherwise a position in range |
| App.NextLayoutFollowsFirst | src/lib.rs:26-31 | the cyclic predecessor of the chosen position holds a layout of that name and no earlier position does: the successor of the first occurrence |
| App.NextLayoutWraps | src/lib.rs:26-31 | when the first layout of that name is the last layout, the rotation goes round to position 0 |
| App.NextLayoutSingle | src/lib.rs:26-31 | with a single layout the next layout is that layout |
| App.NextLayoutAfterFirstDuplicate | src/lib.rs:26-31 | when a name first occurs at i before the end, the next layout is i+1, whatever later layouts share the name |
| App.ShiftHighlightedText | src/lib.rs:13-38 | the shift action over the highlighted text, the layout tables and the selection sink; App.NothingHighlighted, App.ReplacesIffRecognised and App.ReplacesWithShiftedText state what it does |
| App.NothingHighlighted | src/lib.rs:14-17 | with nothing highlighted the result is "No text is currently highlighted"; no layouts are fetched and nothing is replaced |
| App.ReplacesIffRecognised | src/lib.rs:13-38 | the sink is called exactly when text is highlighted and its layout recognised; an unrecognised text gives "Could not determine the layout of the highlighted text" without a replacement; once the sink is called, its result is the action's result |
| App.ReplacesWithShiftedText | src/lib.rs:26-37 | a recognised text is handed to the sink fully shifted to the cyclic successor of the first layout with the recognised name, and the sink's error is propagated; "No next layout found" cannot occur |
| App.SingleLayoutKeepsText | src/lib.rs:19-37 | with a single layout that recognises the text, the text replaces itself |
| App.FromDisplay | src/lib.rs:46-54 | `from_display` refuses blank input and stores the normalised trimmed input; App.FromDisplayBlank, App.FromDisplayIdempotent and App.FromDisplayParsesAlike state what it does |
| App.FromDisplayIdempotent | src/lib.rs:46-54 | a stored hotkey is never blank, and storing its display string again gives the same setting |
| App.FromDisplayParsesAlike | src/lib.rs:46-54 | the stored display string parses exactly as the trimmed input did, to the same hotkey |
| App.FromDisplayBlank | src/lib.rs:47-50 | an input is refused exactly when all its characters are white space, the empty input included, and the error is "Hotkey cannot be empty" |
| Hotkey.KeySegmentIsAscii | src/hotkey/mod.rs:46-48 | a key segment is one ASCII character after trimming and lower-casing; the key is its ASCII upper case |
| Hotkey.ParseDisplay | src/hotkey/mod.rs:34-61 | the loop with its early return and the final key check returns what `ParseDisplaySpec` specifies |
| Hotkey.ParseSegmentsMeaning | src/hotkey/mod.rs:40-54 | with only known segments, each flag is set exactly when its modifier occurs, the key is missing exactly when no key segment occurs, and otherwise it comes from the last key segment; else the error names the first unknown segment as it was written, untrimmed |
| Hotkey.FlagsDependOnKindsOnly | src/hotkey/mod.rs:43-45 | two hotkeys with the same kinds of segment parse to the same flags, however the modifiers are repeated or ordered |
| Hotkey.Capitalize | src/hotkey/mod.rs:21-26 | capitalising keeps the length, upper-cases the first character when it is a one-byte character, and keeps every other character |
| Hotkey.NormalizeSegmentShape | src/hotkey/mod.rs:13-28 | a segment that is not a modifier name keeps its trimmed, lower-cased length, and each character is itself or its upper case |
| Hotkey.ClassifyNormalized | src/hotkey/mod.rs:13-28 | normalising a segment does not change how the parser classifies it |
| Hotkey.NormalizeSegmentIdempotent | src/hotkey/mod.rs:13-28 | normalising a normalised segment changes nothing |
| Hotkey.NormalizeDisplay | src/hotkey/mod.rs:9-32 | `normalize_display` normalises each '+'-separated part and joins the results with '+'; Hotkey.NormalizeDisplaySegments, Hotkey.NormalizeDisplayIdempotent, Hotkey.NormalizeDisplayUnpadded and Hotkey.NormalizeDisplayParses state what it does |
| Hotkey.NormalizeDisplaySegments | src/hotkey/mod.rs:9-32 | the '+'-separated segments of the result are the normalised input segments, so their number is preserved |
| Hotkey.NormalizeDisplayIdempotent | src/hotkey/mod.rs:9-32 | normalising twice is normalising once |
| Hotkey.NormalizeDisplayUnpadded | src/hotkey/mod.rs:9-32 | the result neither starts nor ends with white space, and a non-blank input gives a non-empty result |
| Hotkey.NormalizeDisplayParses | src/hotkey/mod.rs:9-61 | a normalised hotkey is accepted exactly when the original is, with the same meaning |
| Hotkey.ToGnomeBinding | src/hotkey/mod.rs:63-76 | the buffer built by the pushes is the GNOME accelerator of the hotkey |
| Hotkey.GnomeBindingDecodes | src/hotkey/mod.rs:63-76 | reading `<Control>`, `<Alt>`, `<Shift>` in that fixed order and then one key back from the accelerator recovers the hotkey |
| Hotkey.GnomeBindingInjective | src/hotkey/mod.rs:63-76 | different hotkeys give different accelerators |
| Hotkey.ToGnomeBindingFromDisplay | src/hotkey/mod.rs:78-81 | the parse error is passed on unchanged; otherwise the accelerator of the parsed hotkey |
| Hotkey.ToWindowsHotkeyWord | src/hotkey/mod.rs:83-96 | the OR-ed modifier byte shifted left by 8, OR-ed with the key byte, is the word `WindowsHotkeyWord` defines |
| Hotkey.WindowsWordDecodes | src/hotkey/mod.rs:83-96 | the low byte is the key's low byte; bits 8, 9 and 10 are Shift, Ctrl and Alt; the high byte is at most 7 |
| Hotkey.WindowsWordInjective | src/hotkey/mod.rs:83-96 | for the same key byte, two words are equal exactly when the three flags agree |
| Hotkey.ToWindowsHotkeyWordFromDisplay | src/hotkey/mod.rs:98-101 | the parse error is passed on unchanged; otherwise the word of the parsed hotkey |
| Hotkey.ParseCtrlAltK | src/hotkey/tests.rs:9-16 | "Ctrl+Alt+K" parses to ctrl, alt, no shift and key 'K' |
| Hotkey.ParseMetaK | src/hotkey/tests.rs:18-22 | "Meta+K" is refused with "Unsupported key segment: Meta" |
| Hotkey.GnomeCtrlAltK | src/hotkey/tests.rs:24-28 | the hotkey of "Ctrl+Alt+K" gives "<Control><Alt>K" |
| Hotkey.WindowsCtrlAltK | src/hotkey/tests.rs:30-34 | the hotkey of "Ctrl+Alt+K" gives 0x064B |
| Hotkey.NormalizeCtrlAltK | src/hotkey/tests.rs:5 | "ctrl+alt+k" normalises to "Ctrl+Alt+K" |
| Hotkey.NormalizeShiftA | src/hotkey/tests.rs:6 | "Shift + a" normalises to "Shift+A" |
| HotkeyWindows.ParseHotkey | src/hotkey_windows.rs:128-169 | splitting, trimming, the loop and the word construction return what `ParseHotkeySpec` specifies |
| HotkeyWindows.ScanParts | src/hotkey_windows.rs:137-148 | the loop ORs 0x02, 0x01 and 0x04 for Ctrl, Alt and Shift, keeps the last key, and stops at the first unknown part with "Unknown hotkey part: " and the trimmed part |
| HotkeyWindows.WinSegmentsTracksFlags | src/hotkey_windows.rs:137-148 | this loop fails exactly when the `parse_display` loop does, naming the same part; otherwise its byte holds exactly that loop's flags and the same key |
| HotkeyWindows.ParseHotkeyAgrees | src/hotkey_windows.rs:128-169 | `parse_hotkey` accepts exactly what `parse_display` accepts, and returns the word with Alt in bit 8, Ctrl in bit 9 and Shift in bit 10 |
| HotkeyWindows.WordDecodes | src/hotkey_windows.rs:154-162 | the low byte is the key's low byte; bits 8, 9 and 10 are Alt, Ctrl and Shift; the high byte is at most 7 |
| HotkeyWindows.EncodersAgreeIffAltEqualsShift | src/hotkey_windows.rs:140-142 | this word equals the `to_windows_hotkey_word` word exactly when Alt and Shift are both set or both clear |
| HotkeyWindows.ParseHotkeyVersusDisplayWord | src/hotkey_windows.rs:128-169 | on an accepted input, `parse_hotkey` returns the `to_windows_hotkey_word_from_display` word exactly when Alt and Shift go together |
| HotkeyWindows.ParseHotkeyCtrlAltK | src/hotkey_windows.rs:128-169 | "Ctrl+Alt+K" gives 0x034B, whose high byte `SetHotkey` reads as Ctrl+Shift, not Ctrl+Alt |
| HotkeyWindows.ParseHotkeyWithAgrees | src/hotkey_windows.rs:128-169 | with either bit assignment, the loop accepts exactly what `parse_display` accepts and builds the word of the same flags and key |
| HotkeyWindows.CorrectedParseHotkeyAgrees | src/hotkey_windows.rs:128-169 | with the `HOTKEYF_*` bits, `parse_hotkey` accepts exactly what `parse_display` accepts and returns the `to_windows_hotkey_word` word |
| HotkeyWindows.CorrectedParseHotkeyCtrlAltK | src/hotkey/tests.rs:30-34 | the corrected parser gives "Ctrl+Alt+K" the word 0x064B |
| Kde.Ini.constructor | src/platform/linux/kde.rs:66 | a new table is empty |
| Kde.Ini.Set | src/platform/linux/kde.rs:89-93 | the table becomes the old one with `group`/`key` set to `value` |
| Kde.LookupSetValue | src/platform/linux/kde.rs:89-93 | after `ini_set`, `ini[group][key]` is the value and every other group and key reads as before |
| Kde.SetValueValid | src/platform/linux/kde.rs:89-93 | `ini_set` keeps groups and keys strictly ascending and every group non-empty, creating the group when needed |
| Kde.LoadIni | src/platform/linux/kde.rs:65-87 | the line loop with its current-group state builds a new `Ini` holding the table `LoadTable` specifies; an unreadable file gives an empty table |
| Kde.SaveIni | src/platform/linux/kde.rs:95-107 | the buffer built by the two nested loops is the rendering of the table |
| Kde.ApplyKdeBinding | src/platform/linux/kde.rs:18-31 | the text written back is the loaded table with both shortcut entries set, rendered |
| Kde.KdeBindingEntries | src/platform/linux/kde.rs:20-30 | in group "keyboard_map_shift.desktop", `_k_friendly_name` is "Keyboard Map Shift" and `Trigger` is the display string followed by ",none,Trigger"; every other entry is as loaded |
| KdeFormat.RenderTableLines | src/platform/linux/kde.rs:96-107 | the rendering is, group by group in ascending order, the line "[g]" and then one "k=v" line per entry in ascending order, each line ended by a newline |
| KdeFormat.SkippedLineIgnored | src/platform/linux/kde.rs:70-73 | a line that is blank after trimming or starts with '#' or ';' changes nothing |
| KdeFormat.HeaderBrackets | src/platform/linux/kde.rs:74-75 | the header line of a bracket-free group name reads back as that name |
| KdeFormat.TrimBracketsGood | src/platform/linux/kde.rs:75 | a group name read from a header has no bracket at either end |
| KdeFormat.LoadHeader | src/platform/linux/kde.rs:74-75 | a header line makes its group current and leaves the table alone |
| KdeFormat.LoadEntry | src/platform/linux/kde.rs:76-82 | under a current group, the rendered line of an entry sets exactly that entry |
| KdeFormat.EntryLineOverwrites | src/platform/linux/kde.rs:76-82 | a "k=v" line under a group sets the trimmed text before the first '=' to the trimmed rest and leaves everything else, so a later duplicate key overwrites the earlier one |
| KdeFormat.PreambleIgnored | src/platform/linux/kde.rs:76-82 | lines before the first header contribute nothing, entries included |
| KdeFormat.LoadedWellformed | src/platform/linux/kde.rs:65-87 | every loaded table is well-formed: sorted and non-empty groups, no newline in any name or value, keys without '=' and not starting with '#' or ';' and never forming a header line, no padding, no brackets at the ends of group names |
| KdeFormat.SaveLoadRoundTrip | src/platform/linux/kde.rs:65-107 | loading the rendering of a well-formed table gives that table back |
| KdeFormat.LoadSaveLoad | src/platform/linux/kde.rs:65-107 | saving a loaded file and loading it again gives the same table |
| KdeFormat.SetValueWellformed | src/platform/linux/kde.rs:89-93 | setting a good entry in a good group keeps a table well-formed |
| KdeFormat.BindingPersists | src/platform/linux/kde.rs:18-31 | for a display string without newline and leading white space, the file `apply_kde_binding` writes loads back as exactly the table it rendered |
| KdeFormat.TriggerGood | src/platform/linux/kde.rs:24-30 | the `Trigger` entry for such a display string is a good entry |
| KdeFormat.FriendlyNameGood | src/platform/linux/kde.rs:20-22 | the `_k_friendly_name` entry is a good entry |
| KdeFormat.ComponentGroupGood | src/platform/constants.rs:36 | the component group name is a good group name |
| LinuxPlatform.DetectDe | src/platform/linux/mod.rs:36-56 | `detect_de` over the two environment variables; LinuxPlatform.DetectDeCases, LinuxPlatform.SessionOnlyAsFallback, LinuxPlatform.DetectUpperCase and LinuxPlatform.DetectNothingSet state what it does |
| LinuxPlatform.DetectDeCases | src/platform/linux/mod.rs:36-56 | GNOME when the lower-cased `XDG_CURRENT_DESKTOP` contains "gnome", or names neither desktop while `DESKTOP_SESSION` does; KDE likewise for "kde" or "plasma"; Unknown exactly when neither variable names either |
| LinuxPlatform.SessionOnlyAsFallback | src/platform/linux/mod.rs:40-46 | when `XDG_CURRENT_DESKTOP` names a desktop, `DESKTOP_SESSION` does not matter |
| LinuxPlatform.DetectUpperCase | src/platform/linux/mod.rs:37-48 | "GNOME" and "KDE" are recognised in upper case |
| LinuxPlatform.DetectNothingSet | src/platform/linux/mod.rs:36-56 | with neither variable set the desktop is unknown |
| LinuxPlatform.ApplyHotkey | src/platform/linux/mod.rs:15-23 | an unknown desktop gives "Unsupported Linux desktop environment for automatic binding" |
| LinuxPlatform.ApplyHotkeyDispatch | src/platform/linux/mod.rs:15-23 | GNOME gets the GNOME binding's result and KDE the KDE binding's, independent of the other binding; success implies a known desktop |
| LinuxPlatform.RemoveHotkey | src/platform/linux/mod.rs:25-27 | removing the hotkey always succeeds |
| WindowsMapping.LangIdIsRtl | src/keyboard_mapping/windows.rs:12-18 | a LANGID is RTL exactly when its low ten bits are one of 0x01, 0x0D, 0x29, 0x20, 0x5A, 0x65, 0x63, 0x3D and 0x92; WindowsMapping.LangIdIgnoresSublanguage and WindowsMapping.LangIdExamples state its consequences |
| WindowsMapping.LangIdIgnoresSublanguage | src/keyboard_mapping/windows.rs:12-18 | two LANGIDs with the same low 10 bits get the same verdict |
| WindowsMapping.LangIdExamples | src/keyboard_mapping/windows.rs:12-18 | Arabic (0x0401, 0x0801) and Hebrew (0x040D) are RTL; US English (0x0409) and German (0x0407) are not |
| WindowsMapping.LayoutFromHkl | src/keyboard_mapping/windows.rs:29-40 | the layout is RTL exactly when the handle's low 16 bits form an RTL LANGID; its name is the decimal numeral of its index |
| WindowsMapping.ListLayouts | src/keyboard_mapping/windows.rs:48-54 | one layout per handle |
| WindowsMapping.GetLayout | src/keyboard_mapping/windows.rs:42-46 | `get_layout` over the enumerated handles; WindowsMapping.GetLayoutIsListed states what it returns |
| WindowsMapping.GetLayoutIsListed | src/keyboard_mapping/windows.rs:42-54 | `get_layout(i)` is None exactly when i is past the last handle, and otherwise is `list_layouts()[i]` |
| WindowsMapping.ListedNamesDistinct | src/keyboard_mapping/windows.rs:36-54 | the listed layouts have pairwise different names |
| WindowsMapping.PositionOr0 | src/keyboard_mapping/windows.rs:58 | the position of the first handle equal to the given one, or 0 when none is |
| WindowsMapping.VkToCharMapForLayout | src/keyboard_mapping/windows.rs:56-77 | the layout is named after the handle's first position; a virtual key gets an entry exactly when it is at most 255, its scan code is non-zero, and a positive number of units was written; the entry is that text |
| WindowsMapping.KeyTableLayoutIsListed | src/keyboard_mapping/windows.rs:56-59 | for a handle that occurs first at position i, the key table's layout is the listed layout i |
| LinuxMapping.IsRtlChar | src/keyboard_mapping/keyboard_mapping.rs:155-160 | a character is RTL exactly when its code point is in U+0590..U+08FF, U+FB1D..U+FDFF or U+FE70..U+FEFF; LinuxMapping.RtlCharExamples checks each range's edges |
| LinuxMapping.RtlCharExamples | src/keyboard_mapping/keyboard_mapping.rs:155-160 | the Hebrew letter U+05D0, the Arabic letter U+0627, U+FB1D and U+FEFF are RTL; 'a', U+058F, U+0900 and U+FE00, just outside the three ranges, are not |
| LinuxMapping.Country | src/keyboard_mapping/keyboard_mapping.rs:183-194 | the country of one `locale -a` line; LinuxMapping.CountryOfLocale, LinuxMapping.DefaultLocalesSkipped and LinuxMapping.CountryNeedsSeparator state what it gives |
| LinuxMapping.CountryOfLocale | src/keyboard_mapping/keyboard_mapping.rs:186-193 | for a locale "lang_COUNTRY…" (separators '_' or '.') not starting with "C" or "POSIX", the country is the lower-cased second field |
| LinuxMapping.DefaultLocalesSkipped | src/keyboard_mapping/keyboard_mapping.rs:183-185 | locales starting with "C" or "POSIX" give no country |
| LinuxMapping.CountryNeedsSeparator | src/keyboard_mapping/keyboard_mapping.rs:188-193 | a locale with fewer than two fields gives no country |
| LinuxMapping.CountriesMeaning | src/keyboard_mapping/keyboard_mapping.rs:181-196 | a code is among the active countries exactly when some locale line gives it |
| LinuxMapping.SelectedLayouts | src/keyboard_mapping/keyboard_mapping.rs:197-202 | no more names are selected than the registry holds |
| LinuxMapping.SelectedLayoutsMeaning | src/keyboard_mapping/keyboard_mapping.rs:197-202 | a name is selected exactly when it is in the registry and its lower-cased form is an active country |
| LinuxMapping.SelectedLayoutsInOrder | src/keyboard_mapping/keyboard_mapping.rs:197-209 | the selected names keep the registry's order |
| LinuxMapping.LayoutString | src/keyboard_mapping/keyboard_mapping.rs:171-210 | the selected registry names joined with ", "; LinuxMapping.CountriesMeaning, LinuxMapping.SelectedLayoutsMeaning and LinuxMapping.SelectedLayoutsInOrder state which names and in what order |
| LinuxMapping.GetLayout | src/keyboard_mapping/keyboard_mapping.rs:229-258 | None without a keymap or past the last layout; otherwise the name (or the decimal index when it is empty) and RTL exactly when some key code 8..=255 gives text whose first character is RTL, found by the loop that stops at the first |
| LinuxMapping.ListLayouts | src/keyboard_mapping/keyboard_mapping.rs:261-281 | the loop collects every layout `get_layout` gives, or the "current" LTR layout when there are none |
| LinuxMapping.ListLayoutsMeaning | src/keyboard_mapping/keyboard_mapping.rs:261-281 | the list is never empty; with layouts it holds exactly what `get_layout` gives at each position; otherwise it is the single "current" LTR layout |
| LinuxMapping.VkToCharMapForLayout | src/keyboard_mapping/keyboard_mapping.rs:284-305 | the layout is `get_layout`'s, or its index as name and LTR; without a keymap the table is empty; otherwise a key code gets an entry exactly when it is in 8..=255 and its text is non-empty, and the entry is that text |

## Left out

- Reading the selection, replacing it, and enumerating layouts through xkb or Win32 are foreign calls. They are inputs, as listed above.
- HashMap iteration order is a parameter of every operation that iterates a key table. Rust does not fix it, so no particular order is modelled.
- The Unicode Bidi_Class table behind `is_rtl_char` in remap.rs is the parameter `isRtl`. It is data from the Unicode Character Database, not logic.
- `from_utf16_lossy` and the eight-unit buffer of `ToUnicodeEx` are not modelled. The text a key produces is an input.
- `ToUnicodeEx` also changes the keyboard state as a side effect. This is not modelled.
- `enumerate_hkls`, `vk_to_char_map_default` and `all_layout_vk_maps` only fetch data. They are represented by the inputs they would return.
- `get_keymap` and `get_registry_from_xml` are not modelled. They parse `evdev.xml`, run `locale -a` and compile an xkb keymap, and they panic through `expect` when the XML does not parse. The registry names and the keymap are inputs.
- The keymap is taken once per call. The source builds it afresh in each of `get_layout`, `list_layouts` and `vk_to_char_map_for_layout`.
- LinuxMapping.Country: lower-cases the country field with ASCII rules. The source's `to_lowercase` (src/keyboard_mapping/keyboard_mapping.rs:190) is Unicode-wide. The two agree on the ASCII country codes of locale names.
- LinuxMapping.CountryOfLocale: states the ASCII lower-casing of LinuxMapping.Country.
- LinuxMapping.SelectedLayouts: lower-cases the registry layout names with ASCII rules. The source's `to_lowercase` (src/keyboard_mapping/keyboard_mapping.rs:201) is Unicode-wide. A name with a non-ASCII capital letter could match a country in the source and not in the model.
- LinuxMapping.SelectedLayoutsMeaning: "lower-cased" means ASCII lower-casing, as in LinuxMapping.SelectedLayouts.
- LinuxMapping.LayoutString: inherits the ASCII lower-casing of LinuxMapping.Country and LinuxMapping.SelectedLayouts.
- `apply_kde_binding` writes the desktop file (src/platform/linux/kde.rs:6-16, 44-55). It also resolves `HOME` and writes the file, and these can fail. It runs `qdbus`. These are file-system and process effects. The model starts from the contents of `kglobalshortcutsrc` and ends with the text written back.
- The write error of `save_ini` is file I/O and is not modelled.
- The GNOME binding is not modelled (src/platform/linux/gnome.rs). It is `gsettings` subprocess calls. `apply_hotkey` receives its outcome as an input.
- `update_hotkey` (src/lib.rs:57-63) is not modelled. It loads and saves the TOML configuration.
- The `eprintln!` debug output of `parse_hotkey` is not modelled.
- The COM shortcut code of src/hotkey_windows.rs is not part of this model.
- Remap.ScanIsBest: requires texts shorter than 2^30 − 2 characters (`Remap.MaxScoredText`). The model's scores are unbounded. The program's `i32` score can overflow from 2^30 − 2 characters on, when the direction bonus is added.
- Remap.MatchLayoutIsBest: same bound as Remap.ScanIsBest.
- Remap.ScoreAboveSentinel: same bound as Remap.ScanIsBest.
- App.NextLayout: requires a layout of the given name whenever there are layouts. Without one, the `cycle().skip_while(..)` chain never ends. The action always satisfies this, since it looks up a layout from the same list.

## Findings

| source | as written | input that shows it | evidently intended | confidence | as-written member | corrected member |
|---|---|---|---|---|---|---|
| src/hotkey_windows.rs:140-142 | `parse_hotkey` ORs Alt as 0x01 and Shift as 0x04 into the high byte of the word passed to `IShellLink::SetHotkey` | "Ctrl+Alt+K" gives 0x034B, which `SetHotkey` reads as Ctrl+Shift+K | the `HOTKEYF_*` layout of `to_windows_hotkey_word` (Shift 0x01, Alt 0x04), giving 0x064B as src/hotkey/tests.rs:30-34 expects | medium, not executed | HotkeyWindows.ParseHotkeyCtrlAltK | HotkeyWindows.CorrectedParseHotkeyAgrees |
