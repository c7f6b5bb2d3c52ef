/**
 * The Windows layout catalogue (src/keyboard_mapping/windows.rs): a layout
 * per installed keyboard-layout handle, named by its position and RTL when
 * the handle's language is written right to left, and the key table of a
 * layout read key by key from the system.
 *
 * The handle list (`GetKeyboardLayoutList`) and the per-key answers of
 * `MapVirtualKeyExW` and `ToUnicodeEx` are inputs.
 */
module WindowsMapping {
  import opened Wrappers
  import opened Strings
  import opened Layouts

  /** An `HKL` handle, as the pointer-sized integer it is. */
  type Hkl = bv64

  /**
   * The primary languages written right to left: Arabic, Hebrew, Persian,
   * Urdu, Syriac, Divehi, Pashto, Yiddish and Central Kurdish.
   */
  const RtlPrimaryLanguages: set<bv16> := {0x01, 0x0D, 0x29, 0x20, 0x5A, 0x65, 0x63, 0x3D, 0x92}

  /** `windows_langid_is_rtl`: the primary language, the low ten bits of the LANGID, is an RTL one. */
  predicate LangIdIsRtl(langid: bv16) {
    langid & 0x03FF in RtlPrimaryLanguages
  }

  /** The sub-language bits above the low ten do not matter. */
  lemma LangIdIgnoresSublanguage(a: bv16, b: bv16)
    requires a & 0x03FF == b & 0x03FF
    ensures LangIdIsRtl(a) == LangIdIsRtl(b)
  {
  }

  /** Arabic (Saudi Arabia and Iraq) and Hebrew are RTL; US English and German are not. */
  lemma LangIdExamples()
    ensures LangIdIsRtl(0x0401) && LangIdIsRtl(0x0801) && LangIdIsRtl(0x040D)
    ensures !LangIdIsRtl(0x0409) && !LangIdIsRtl(0x0407)
  {
  }

  /** `(hkl as usize & 0xFFFF) as u16`: the LANGID in the handle's low word. */
  function LangIdOf(hkl: Hkl): bv16 {
    (hkl & 0xFFFF) as bv16
  }

  /** `keyboard_layout_from_hkl`: named by its position, directed by the handle's language. */
  function LayoutFromHkl(hkl: Hkl, idx: nat): (l: KeyboardLayout)
    ensures l.direction == RTL <==> LangIdIsRtl(LangIdOf(hkl))
    ensures (forall i :: 0 <= i < |l.langName| ==> IsDigit(l.langName[i])) && DecimalValue(l.langName) == idx
  {
    KeyboardLayout(NatToDecimal(idx), if LangIdIsRtl(LangIdOf(hkl)) then RTL else LTR)
  }

  /** `list_layouts`: one layout per handle, in the system's order. */
  function ListLayouts(hkls: seq<Hkl>): (r: seq<KeyboardLayout>)
    ensures |r| == |hkls|
  {
    seq(|hkls|, i requires 0 <= i < |hkls| => LayoutFromHkl(hkls[i], i))
  }

  /** `get_layout`: the layout of the handle at `index`, if there is one. */
  function GetLayout(hkls: seq<Hkl>, index: nat): Option<KeyboardLayout> {
    if index < |hkls| then Some(LayoutFromHkl(hkls[index], index)) else None
  }

  /** `get_layout(i)` is missing exactly past the end, and otherwise is the `i`th listed layout. */
  lemma GetLayoutIsListed(hkls: seq<Hkl>, index: nat)
    ensures GetLayout(hkls, index).None? <==> index >= |hkls|
    ensures index < |hkls| ==> GetLayout(hkls, index) == Some(ListLayouts(hkls)[index])
  {
  }

  /**
   * The listed layouts have pairwise different names, so a layout found by
   * name in the rotation is the layout at that position.
   */
  lemma ListedNamesDistinct(hkls: seq<Hkl>, i: nat, j: nat)
    requires i < |hkls| && j < |hkls| && i != j
    ensures ListLayouts(hkls)[i].langName != ListLayouts(hkls)[j].langName
  {
    if ListLayouts(hkls)[i].langName == ListLayouts(hkls)[j].langName {
      NatToDecimalInjective(i, j);
    }
  }

  /** `hkls.iter().position(..).unwrap_or(0)`: the first position of `hkl`, or 0. */
  function PositionOr0(hkls: seq<Hkl>, hkl: Hkl): (r: nat)
    ensures hkl in hkls ==> r < |hkls| && hkls[r] == hkl && hkl !in hkls[..r]
    ensures hkl !in hkls ==> r == 0
    decreases |hkls|
  {
    if hkls == [] || hkls[0] == hkl then 0
    else if hkl in hkls[1..] then 1 + PositionOr0(hkls[1..], hkl)
    else 0
  }

  /**
   * The key table `vk_to_char_map_for_layout` builds: each virtual key
   * 0..=255 with a non-zero scan code for which `ToUnicodeEx` wrote a
   * positive number of UTF-16 units, mapped to those units as text.
   */
  function VkEntries(scanCode: KeyCode -> nat, unitsWritten: KeyCode -> int,
                     text: KeyCode -> string, upTo: nat): map<KeyCode, string>
  {
    map vk: KeyCode | 0 <= vk < upTo && vk <= 255 && scanCode(vk) != 0 && unitsWritten(vk) > 0 :: text(vk)
  }

  /**
   * `vk_to_char_map_for_layout`: the layout is named after the handle's
   * first position in the list (0 when it is not listed); the table asks
   * for every virtual key's scan code and, when there is one, its text,
   * keeping the first text per key. `scanCode`, `unitsWritten` and `text`
   * are the answers of `MapVirtualKeyExW`, of `ToUnicodeEx` and of decoding
   * what it wrote, for this handle.
   */
  method VkToCharMapForLayout(hkls: seq<Hkl>, hkl: Hkl, scanCode: KeyCode -> nat,
                              unitsWritten: KeyCode -> int, text: KeyCode -> string)
    returns (lm: LayoutMap)
    ensures lm.layout == LayoutFromHkl(hkl, PositionOr0(hkls, hkl))
    ensures forall vk: KeyCode :: vk in lm.glyphs <==> vk <= 255 && scanCode(vk) != 0 && unitsWritten(vk) > 0
    ensures forall vk :: vk in lm.glyphs ==> lm.glyphs[vk] == text(vk)
  {
    var idx := PositionOr0(hkls, hkl);
    var layout := LayoutFromHkl(hkl, idx);
    var m: map<KeyCode, string> := map[];
    for vk := 0 to 256
      invariant m == VkEntries(scanCode, unitsWritten, text, vk)
    {
      var sc := scanCode(vk);
      if sc == 0 {
        continue;
      }
      var written := unitsWritten(vk);
      if written > 0 {
        var s := text(vk);
        if vk !in m {
          m := m[vk := s];
        }
      }
    }
    lm := LayoutMap(layout, m);
  }

  /** The key table of a listed handle carries the layout listed at its first position. */
  lemma KeyTableLayoutIsListed(hkls: seq<Hkl>, i: nat)
    requires i < |hkls| && hkls[i] !in hkls[..i]
    ensures LayoutFromHkl(hkls[i], PositionOr0(hkls, hkls[i])) == ListLayouts(hkls)[i]
  {
    assert hkls[i] in hkls;
    var p := PositionOr0(hkls, hkls[i]);
    FirstPositionUnique(hkls, p, i);
  }

  /** Two positions that each hold the first occurrence of the same handle are the same position. */
  lemma FirstPositionUnique(hkls: seq<Hkl>, p: nat, i: nat)
    requires p < |hkls| && i < |hkls| && hkls[p] == hkls[i]
    requires hkls[i] !in hkls[..p] && hkls[i] !in hkls[..i]
    ensures p == i
  {
    AbsentFromPrefix(hkls, hkls[i], p);
    AbsentFromPrefix(hkls, hkls[i], i);
  }

  lemma AbsentFromPrefix(hkls: seq<Hkl>, hkl: Hkl, n: nat)
    requires n <= |hkls| && hkl !in hkls[..n]
    ensures forall k :: 0 <= k < n ==> hkls[k] != hkl
  {
    forall k | 0 <= k < n ensures hkls[k] != hkl {
      assert hkls[..n][k] == hkls[k];
    }
  }
}
