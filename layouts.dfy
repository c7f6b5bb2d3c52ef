/**
 * The shared layout types: a keyboard layout's name and writing direction,
 * and a layout together with its key-code to glyph table.
 */
module Layouts {

  /** A key code is a Rust `u16`. */
  type KeyCode = k: int | 0 <= k < 0x1_0000

  datatype Direction = LTR | RTL

  /** `KeyboardLayout`: `lang_name` identifies the layout in the rotation. */
  datatype KeyboardLayout = KeyboardLayout(langName: string, direction: Direction)

  /** `LayoutMap`: the layout and its `HashMap<u16, String>` from key code to glyph. */
  datatype LayoutMap = LayoutMap(layout: KeyboardLayout, glyphs: map<KeyCode, string>)

  /**
   * `order` lists every key of `m` exactly once. It stands for the iteration
   * order of a `HashMap`, which the program does not fix; every operation
   * that iterates such a map takes the order as a parameter.
   */
  predicate Enumerates(order: seq<KeyCode>, m: map<KeyCode, string>) {
    && (forall i :: 0 <= i < |order| ==> order[i] in m)
    && (forall k :: k in m ==> k in order)
    && (forall i, j :: 0 <= i < j < |order| ==> order[i] != order[j])
  }
}
