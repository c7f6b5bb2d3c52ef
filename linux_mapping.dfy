/**
 * The Linux layout catalogue (src/keyboard_mapping/keyboard_mapping.rs):
 * which xkb layouts to load, judged from the installed locales; each
 * loaded layout's name and direction; and its key table.
 *
 * The output of `locale -a`, the layout names of the xkb registry and the
 * compiled keymap (its layout names and the text each key produces in
 * each layout) are inputs.
 */
module LinuxMapping {
  import opened Wrappers
  import opened Strings
  import opened Layouts

  /** `is_rtl_char`: Hebrew to Arabic Extended-A, and the two Arabic presentation-form blocks. */
  predicate IsRtlChar(c: char) {
    var u := c as int;
    (0x0590 <= u <= 0x08FF) || (0xFB1D <= u <= 0xFDFF) || (0xFE70 <= u <= 0xFEFF)
  }

  lemma RtlCharExamples()
    ensures IsRtlChar('\U{05D0}') && IsRtlChar('\U{0627}') && IsRtlChar('\U{FB1D}') && IsRtlChar('\U{FEFF}')
    ensures !IsRtlChar('a') && !IsRtlChar('\U{058F}') && !IsRtlChar('\U{0900}') && !IsRtlChar('\U{FE00}')
  {
  }

  // ----- locales to layouts ------------------------------------------------

  predicate IsLocaleSep(c: char) { c == '_' || c == '.' }

  /** `split(&['_', '.'][..])`: the pieces between separators, empty ones included. */
  function Fields(s: string): (parts: seq<string>)
    ensures |parts| >= 1
    decreases |s|
  {
    if s == [] then [[]]
    else
      var rest := Fields(s[1..]);
      if IsLocaleSep(s[0]) then [[]] + rest
      else [[s[0]] + rest[0]] + rest[1..]
  }

  /** A separator-free start joins the first field. */
  lemma {:induction false} FieldsAfterPlain(a: string, t: string)
    requires forall i :: 0 <= i < |a| ==> !IsLocaleSep(a[i])
    ensures Fields(a + t)[0] == a + Fields(t)[0]
    ensures Fields(a + t)[1..] == Fields(t)[1..]
    decreases |a|
  {
    if a != [] {
      assert (a + t)[1..] == a[1..] + t;
      FieldsAfterPlain(a[1..], t);
      assert a == [a[0]] + a[1..];
    } else {
      assert a + t == t;
    }
  }

  /** A separator-free string is a single field. */
  lemma PlainIsOneField(s: string)
    requires forall i :: 0 <= i < |s| ==> !IsLocaleSep(s[i])
    ensures Fields(s) == [s]
  {
    FieldsAfterPlain(s, []);
    assert s + [] == s;
  }

  /**
   * The second field: after a separator-free first field and a separator
   * comes a separator-free run up to the next separator or the end.
   */
  lemma SecondField(a: string, sep: char, b: string, r: string)
    requires IsLocaleSep(sep) && (r == [] || IsLocaleSep(r[0]))
    requires forall i :: 0 <= i < |a| ==> !IsLocaleSep(a[i])
    requires forall i :: 0 <= i < |b| ==> !IsLocaleSep(b[i])
    ensures |Fields(a + [sep] + b + r)| >= 2 && Fields(a + [sep] + b + r)[1] == b
  {
    var t := [sep] + b + r;
    assert a + [sep] + b + r == a + t;
    FieldsAfterPlain(a, t);
    assert t[1..] == b + r;
    FieldsAfterPlain(b, r);
    if r == [] {
      assert Fields(r) == [[]];
    } else {
      assert Fields(r)[0] == [] by { assert IsLocaleSep(r[0]); }
    }
    assert b + [] == b;
  }

  /**
   * The country of one `locale -a` line: none for "C…" and "POSIX…" lines,
   * otherwise the lower-cased second field, if there is one.
   */
  function Country(loc: string): Option<string> {
    if StartsWith(loc, "C") || StartsWith(loc, "POSIX") then None
    else
      var parts := Fields(loc);
      if |parts| >= 2 then Some(AsciiLower(parts[1])) else None
  }

  /** "ll_CC.charset" and "ll_CC" give the lower-cased CC. */
  lemma CountryOfLocale(lang: string, sep: char, country: string, rest: string)
    requires IsLocaleSep(sep) && (rest == [] || IsLocaleSep(rest[0]))
    requires forall i :: 0 <= i < |lang| ==> !IsLocaleSep(lang[i])
    requires forall i :: 0 <= i < |country| ==> !IsLocaleSep(country[i])
    requires var loc := lang + [sep] + country + rest; !StartsWith(loc, "C") && !StartsWith(loc, "POSIX")
    ensures Country(lang + [sep] + country + rest) == Some(AsciiLower(country))
  {
    SecondField(lang, sep, country, rest);
  }

  /** "C…" and "POSIX…" lines give no country. */
  lemma DefaultLocalesSkipped(loc: string)
    requires StartsWith(loc, "C") || StartsWith(loc, "POSIX")
    ensures Country(loc) == None
  {
  }

  /** A line without '_' or '.' gives no country. */
  lemma CountryNeedsSeparator(loc: string)
    requires forall i :: 0 <= i < |loc| ==> !IsLocaleSep(loc[i])
    ensures Country(loc) == None
  {
    PlainIsOneField(loc);
  }

  /** `filter_map` of `Country` over the lines, in order. */
  function Countries(locs: seq<string>): seq<string>
    decreases |locs|
  {
    if locs == [] then []
    else
      (match Country(locs[0]) case Some(c) => [c] case None => []) + Countries(locs[1..])
  }

  /** A country is listed exactly when some line yields it. */
  lemma {:induction false} CountriesMeaning(locs: seq<string>, c: string)
    ensures c in Countries(locs) <==> exists i :: 0 <= i < |locs| && Country(locs[i]) == Some(c)
    decreases |locs|
  {
    if locs != [] {
      CountriesMeaning(locs[1..], c);
      if exists i :: 0 <= i < |locs[1..]| && Country(locs[1..][i]) == Some(c) {
        var i :| 0 <= i < |locs[1..]| && Country(locs[1..][i]) == Some(c);
        assert Country(locs[i + 1]) == Some(c);
      }
      if exists i :: 0 <= i < |locs| && Country(locs[i]) == Some(c) {
        var i :| 0 <= i < |locs| && Country(locs[i]) == Some(c);
        if i > 0 {
          assert Country(locs[1..][i - 1]) == Some(c);
        }
      }
    }
  }

  /** `active_countries`: the countries of the lines of `locale -a`, split at each '\n'. */
  function ActiveCountries(localeOutput: string): seq<string> {
    Countries(Split(localeOutput, '\n'))
  }

  /** The registry names whose lower-cased form is an active country, in registry order. */
  function SelectedLayouts(names: seq<string>, countries: seq<string>): (r: seq<string>)
    ensures |r| <= |names|
    decreases |names|
  {
    if names == [] then []
    else
      (if AsciiLower(names[0]) in countries then [names[0]] else []) + SelectedLayouts(names[1..], countries)
  }

  /** A name is selected exactly when it is in the registry and its lower-cased form is an active country. */
  lemma {:induction false} SelectedLayoutsMeaning(names: seq<string>, countries: seq<string>, x: string)
    ensures x in SelectedLayouts(names, countries) <==> x in names && AsciiLower(x) in countries
    decreases |names|
  {
    if names != [] {
      SelectedLayoutsMeaning(names[1..], countries, x);
      assert names == [names[0]] + names[1..];
    }
  }

  /** Selection keeps the registry order: the selected names are a subsequence of the registry. */
  lemma {:induction false} SelectedLayoutsInOrder(names: seq<string>, countries: seq<string>)
    ensures IsSubsequence(SelectedLayouts(names, countries), names)
    decreases |names|
  {
    if names != [] {
      SelectedLayoutsInOrder(names[1..], countries);
      var rest := SelectedLayouts(names[1..], countries);
      if AsciiLower(names[0]) in countries {
        assert SelectedLayouts(names, countries) == [names[0]] + rest;
        assert ([names[0]] + rest)[1..] == rest;
      } else {
        assert SelectedLayouts(names, countries) == rest;
      }
    }
  }

  /** `xs` is `ys` with some elements left out. */
  predicate IsSubsequence(xs: seq<string>, ys: seq<string>)
    decreases |ys|
  {
    xs == [] || (ys != [] && ((xs[0] == ys[0] && IsSubsequence(xs[1..], ys[1..])) || IsSubsequence(xs, ys[1..])))
  }

  /** `get_locale_layout_and_variant_strs`: the selected registry names, joined with ", ". */
  function LayoutString(registryNames: seq<string>, localeOutput: string): string {
    Join(SelectedLayouts(registryNames, ActiveCountries(localeOutput)), ", ")
  }

  // ----- layouts of the keymap --------------------------------------------

  /**
   * The compiled keymap: its layouts' names, and the text `key_get_utf8`
   * gives for a key code in the state that selects a layout.
   */
  datatype Keymap = Keymap(layoutNames: seq<string>, keyText: (nat, nat) -> string)

  /** The text of a key begins with an RTL character. */
  predicate StartsRtl(s: string) {
    s != [] && IsRtlChar(s[0])
  }

  /** A layout is RTL when some key code 8..=255 produces text beginning with an RTL character. */
  function LayoutDirection(km: Keymap, index: nat): Direction {
    if exists kc :: 8 <= kc <= 255 && StartsRtl(km.keyText(index, kc)) then RTL else LTR
  }

  /** The name of layout `index`, or its number when xkb gives it no name. */
  function LayoutName(km: Keymap, index: nat): string
    requires index < |km.layoutNames|
  {
    if km.layoutNames[index] == [] then NatToDecimal(index) else km.layoutNames[index]
  }

  /** What `get_layout` returns: nothing without a keymap or past its last layout. */
  function GetLayoutSpec(keymap: Option<Keymap>, index: nat): Option<KeyboardLayout> {
    match keymap
    case None => None
    case Some(km) =>
      if index >= |km.layoutNames| then None
      else Some(KeyboardLayout(LayoutName(km, index), LayoutDirection(km, index)))
  }

  /** `get_layout`: the name, then the scan of key codes 8..=255 that stops at the first RTL text. */
  method GetLayout(keymap: Option<Keymap>, index: nat) returns (r: Option<KeyboardLayout>)
    ensures r == GetLayoutSpec(keymap, index)
  {
    if keymap.None? {
      return None;
    }
    var km := keymap.value;
    if index >= |km.layoutNames| {
      return None;
    }
    var name := km.layoutNames[index];
    var langName := if name == [] then NatToDecimal(index) else name;
    var dir := LTR;
    var keycode := 8;
    while keycode <= 255
      invariant 8 <= keycode <= 256
      invariant dir == LTR ==> forall kc :: 8 <= kc < keycode ==> !StartsRtl(km.keyText(index, kc))
      invariant dir == RTL ==> StartsRtl(km.keyText(index, keycode))
      invariant dir == RTL ==> keycode <= 255
      decreases 256 - keycode, if dir == LTR then 1 else 0
    {
      var s := km.keyText(index, keycode);
      if s != [] && IsRtlChar(s[0]) {
        dir := RTL;
        break;
      }
      keycode := keycode + 1;
    }
    r := Some(KeyboardLayout(langName, dir));
  }

  /** The layout `list_layouts` falls back to. */
  const CurrentLayout := KeyboardLayout("current", LTR)

  /** What `list_layouts` returns. */
  function ListLayoutsSpec(keymap: Option<Keymap>): seq<KeyboardLayout> {
    match keymap
    case None => [CurrentLayout]
    case Some(km) =>
      if km.layoutNames == [] then [CurrentLayout]
      else seq(|km.layoutNames|, i requires 0 <= i < |km.layoutNames| =>
             KeyboardLayout(LayoutName(km, i), LayoutDirection(km, i)))
  }

  /** `list_layouts`: every layout of the keymap in order, or the single "current" one. */
  method ListLayouts(keymap: Option<Keymap>) returns (result: seq<KeyboardLayout>)
    ensures result == ListLayoutsSpec(keymap)
  {
    if keymap.None? {
      return [CurrentLayout];
    }
    var n := |keymap.value.layoutNames|;
    result := [];
    for i := 0 to n
      invariant |result| == i
      invariant forall j :: 0 <= j < i ==> Some(result[j]) == GetLayoutSpec(keymap, j)
    {
      var l := GetLayout(keymap, i);
      if l.Some? {
        result := result + [l.value];
      }
    }
    if result == [] {
      result := result + [CurrentLayout];
    }
  }

  /** The list is never empty, and with layouts it holds exactly what `get_layout` gives for each position. */
  lemma ListLayoutsMeaning(keymap: Option<Keymap>)
    ensures ListLayoutsSpec(keymap) != []
    ensures forall i :: 0 <= i < |ListLayoutsSpec(keymap)| && GetLayoutSpec(keymap, 0).Some? ==>
      GetLayoutSpec(keymap, i) == Some(ListLayoutsSpec(keymap)[i])
    ensures GetLayoutSpec(keymap, 0).None? ==> ListLayoutsSpec(keymap) == [KeyboardLayout("current", LTR)]
  {
  }

  /** The key table of one layout: each key code 8..=255 with non-empty text, mapped to it. */
  function KeyEntries(km: Keymap, index: nat, upTo: nat): map<KeyCode, string> {
    map kc: KeyCode | 8 <= kc < upTo && kc <= 255 && km.keyText(index, kc) != [] :: km.keyText(index, kc)
  }

  /**
   * `vk_to_char_map_for_layout`: the layout (or, when `get_layout` has none,
   * one named by the index and LTR) and, with a keymap, the text of every
   * key code 8..=255 that produces any, the first text kept per code.
   */
  method VkToCharMapForLayout(keymap: Option<Keymap>, layoutIndex: nat) returns (lm: LayoutMap)
    ensures lm.layout == match GetLayoutSpec(keymap, layoutIndex)
      case Some(l) => l
      case None => KeyboardLayout(NatToDecimal(layoutIndex), LTR)
    ensures keymap.None? ==> lm.glyphs == map[]
    ensures keymap.Some? ==> forall kc: KeyCode :: kc in lm.glyphs <==>
      8 <= kc <= 255 && keymap.value.keyText(layoutIndex, kc) != []
    ensures keymap.Some? ==> forall kc :: kc in lm.glyphs ==> lm.glyphs[kc] == keymap.value.keyText(layoutIndex, kc)
  {
    var l := GetLayout(keymap, layoutIndex);
    var layout := if l.Some? then l.value else KeyboardLayout(NatToDecimal(layoutIndex), LTR);
    if keymap.None? {
      return LayoutMap(layout, map[]);
    }
    var km := keymap.value;
    var m: map<KeyCode, string> := map[];
    for keycode := 8 to 256
      invariant m == KeyEntries(km, layoutIndex, keycode)
    {
      var s := km.keyText(layoutIndex, keycode);
      if s != [] && keycode !in m {
        m := m[keycode := s];
      }
    }
    lm := LayoutMap(layout, m);
  }
}
