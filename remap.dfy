/**
 * The layout detection and remapping engine (src/keyboard_mapping/remap.rs):
 * the direction hint of a text, the coverage score of a layout, the choice of
 * the layout that best explains a text, the inverse glyph-to-key table, and
 * the re-typing of a text under another layout.
 *
 * Whether a character is right-to-left comes from its Unicode Bidi_Class
 * (classes R and AL); that table is not part of this model, so every
 * operation that needs it takes it as the parameter `isRtl`.
 */
module Remap {
  import opened Wrappers
  import opened Strings
  import opened Layouts

  // ----- direction hint ----------------------------------------------------

  /** The characters `text_starts_rtl` steps over: white space and ASCII punctuation only. */
  predicate Skipped(c: char) {
    IsWhitespace(c) || IsAsciiPunctuation(c)
  }

  /**
   * The direction hint of a text: whether its first character that is not
   * skipped is right-to-left (a digit or any other neutral character decides
   * too), or None when every character is skipped.
   */
  function DirectionHint(text: string, isRtl: char -> bool): (r: Option<bool>)
    ensures r.None? <==> forall i :: 0 <= i < |text| ==> Skipped(text[i])
    ensures r.Some? ==> exists i :: (0 <= i < |text| && !Skipped(text[i])
      && (forall j :: 0 <= j < i ==> Skipped(text[j])) && r.value == isRtl(text[i]))
    decreases |text|
  {
    if |text| == 0 then None
    else if Skipped(text[0]) then
      var r := DirectionHint(text[1..], isRtl);
      assert forall i :: 1 <= i < |text| ==> text[i] == text[1..][i - 1];
      r
    else Some(isRtl(text[0]))
  }

  /** `text_starts_rtl`: the loop that returns at the first character it does not skip. */
  method TextStartsRtl(text: string, isRtl: char -> bool) returns (r: Option<bool>)
    ensures r == DirectionHint(text, isRtl)
  {
    var i := 0;
    while i < |text|
      invariant 0 <= i <= |text|
      invariant DirectionHint(text[i..], isRtl) == DirectionHint(text, isRtl)
    {
      var ch := text[i];
      if Skipped(ch) {
        assert text[i..][1..] == text[i + 1..];
        i := i + 1;
        continue;
      }
      return Some(isRtl(ch));
    }
    return None;
  }

  /** A leading digit is not skipped, so it decides the hint (as left-to-right unless it is RTL). */
  lemma LeadingDigitDecides(text: string, isRtl: char -> bool)
    requires |text| > 0 && IsDigit(text[0])
    ensures DirectionHint(text, isRtl) == Some(isRtl(text[0]))
  {
  }

  // ----- direction bonus ---------------------------------------------------

  /**
   * `direction_bonus`: a hint that agrees with the layout's direction earns a
   * bonus (more for right-to-left), one that disagrees a penalty, no hint nothing.
   */
  function DirectionBonus(hint: Option<bool>, dir: Direction): (r: int)
    ensures hint.None? ==> r == 0
    ensures hint.Some? && hint.value == (dir == RTL) ==> r == (if dir == RTL then 5 else 3)
    ensures hint.Some? && hint.value != (dir == RTL) ==> r == -2
  {
    match (hint, dir)
    case (Some(true), RTL) => 5
    case (Some(false), LTR) => 3
    case (Some(true), LTR) => -2
    case (Some(false), RTL) => -2
    case _ => 0
  }

  // ----- coverage score ----------------------------------------------------

  /** How many non-control characters of `text` are in `keys`. */
  function MatchCount(text: string, keys: set<char>): nat
    decreases |text|
  {
    if text == [] then 0
    else
      var c := text[|text| - 1];
      MatchCount(text[..|text| - 1], keys) + (if !IsControl(c) && c in keys then 1 else 0)
  }

  /** How many non-control characters of `text` are not in `keys`. */
  function MissCount(text: string, keys: set<char>): nat
    decreases |text|
  {
    if text == [] then 0
    else
      var c := text[|text| - 1];
      MissCount(text[..|text| - 1], keys) + (if !IsControl(c) && c !in keys then 1 else 0)
  }

  /** How many characters of `text` are not control characters. */
  function NonControlCount(text: string): nat
    decreases |text|
  {
    if text == [] then 0
    else NonControlCount(text[..|text| - 1]) + (if IsControl(text[|text| - 1]) then 0 else 1)
  }

  /** The coverage score: +2 per recognised character, -1 per other non-control character. */
  function CoverageScoreOf(text: string, keys: set<char>): int {
    2 * MatchCount(text, keys) - MissCount(text, keys)
  }

  /** Every non-control character is either a match or a miss, so matches never exceed them. */
  lemma {:induction false} MatchesAndMisses(text: string, keys: set<char>)
    ensures MatchCount(text, keys) + MissCount(text, keys) == NonControlCount(text)
    ensures MatchCount(text, keys) <= NonControlCount(text) <= |text|
    ensures CoverageScoreOf(text, keys) == 3 * MatchCount(text, keys) - NonControlCount(text)
    ensures CoverageScoreOf(text, keys) >= -|text|
    decreases |text|
  {
    if text != [] {
      MatchesAndMisses(text[..|text| - 1], keys);
    }
  }

  /** A text has a match exactly when one of its non-control characters is in `keys`. */
  lemma {:induction false} MatchCountPositive(text: string, keys: set<char>)
    ensures MatchCount(text, keys) > 0 <==> exists i :: 0 <= i < |text| && !IsControl(text[i]) && text[i] in keys
    decreases |text|
  {
    if text != [] {
      var p := text[..|text| - 1];
      MatchCountPositive(p, keys);
      assert forall i :: 0 <= i < |p| ==> p[i] == text[i];
    }
  }

  /**
   * Appending one character changes the score by +2 if it is recognised, by
   * -1 if it is not, and not at all if it is a control character.
   */
  lemma CoverageAppend(text: string, c: char, keys: set<char>)
    ensures CoverageScoreOf(text + [c], keys) == CoverageScoreOf(text, keys)
      + (if IsControl(c) then 0 else if c in keys then 2 else -1)
    ensures MatchCount(text + [c], keys) == MatchCount(text, keys)
      + (if !IsControl(c) && c in keys then 1 else 0)
  {
    assert (text + [c])[..|text|] == text;
  }

  /** `coverage_score`: the loop that adds +2 and a match, or -1, per non-control character. */
  method CoverageScore(text: string, inverse: map<char, seq<KeyCode>>) returns (score: int, matches: nat)
    ensures matches == MatchCount(text, inverse.Keys)
    ensures score == CoverageScoreOf(text, inverse.Keys)
  {
    score, matches := 0, 0;
    for i := 0 to |text|
      invariant matches == MatchCount(text[..i], inverse.Keys)
      invariant score == 2 * matches - MissCount(text[..i], inverse.Keys)
    {
      var ch := text[i];
      assert text[..i + 1][..i] == text[..i];
      if IsControl(ch) {
        continue;
      }
      if ch in inverse {
        score := score + 2;
        matches := matches + 1;
      } else {
        score := score - 1;
      }
    }
    assert text[..|text|] == text;
  }

  // ----- inverse map -------------------------------------------------------

  /** The characters that some key of `m` produces as a one-character glyph. */
  function GlyphChars(m: map<KeyCode, string>): set<char> {
    set k | k in m && |m[k]| == 1 :: m[k][0]
  }

  /** The same, for the keys listed in `order`. */
  function GlyphCharsIn(m: map<KeyCode, string>, order: seq<KeyCode>): set<char> {
    set i | 0 <= i < |order| && order[i] in m && |m[order[i]]| == 1 :: m[order[i]][0]
  }

  /** The keys of `order` whose glyph in `m` is exactly the one character `c`, in that order. */
  function KeysProducing(m: map<KeyCode, string>, order: seq<KeyCode>, c: char): seq<KeyCode>
    decreases |order|
  {
    if order == [] then []
    else
      var vk := order[|order| - 1];
      KeysProducing(m, order[..|order| - 1], c) + (if vk in m && m[vk] == [c] then [vk] else [])
  }

  /** The inverse table `invert_layout_map` builds when it visits the keys of `m` in `order`. */
  function InverseMap(m: map<KeyCode, string>, order: seq<KeyCode>): map<char, seq<KeyCode>> {
    map c | c in GlyphCharsIn(m, order) :: KeysProducing(m, order, c)
  }

  /** Visiting one more key adds it at the end of its character's list, if its glyph is one character. */
  lemma InverseMapSnoc(m: map<KeyCode, string>, order: seq<KeyCode>, vk: KeyCode)
    requires vk in m
    ensures var inv := InverseMap(m, order);
      InverseMap(m, order + [vk]) ==
        if |m[vk]| == 1 then
          inv[m[vk][0] := (if m[vk][0] in inv then inv[m[vk][0]] else []) + [vk]]
        else inv
  {
    var o := order + [vk];
    assert o[..|order|] == order;
    var inv := InverseMap(m, order);
    var g := GlyphCharsIn(m, order);
    if |m[vk]| == 1 {
      assert GlyphCharsIn(m, o) == g + {m[vk][0]} by {
        forall c | c in GlyphCharsIn(m, o) ensures c in g + {m[vk][0]} {
          var i :| 0 <= i < |o| && o[i] in m && |m[o[i]]| == 1 && m[o[i]][0] == c;
          if i < |order| { assert order[i] == o[i]; }
        }
        forall c | c in g ensures c in GlyphCharsIn(m, o) {
          var i :| 0 <= i < |order| && order[i] in m && |m[order[i]]| == 1 && m[order[i]][0] == c;
          assert o[i] == order[i];
        }
        assert o[|order|] == vk;
      }
      var c0 := m[vk][0];
      assert m[vk] == [c0];
      var want := inv[c0 := (if c0 in inv then inv[c0] else []) + [vk]];
      KeysProducingNonEmpty(m, order, c0);
      assert KeysProducing(m, o, c0) == want[c0];
      forall c | c in g && c != c0 ensures KeysProducing(m, o, c) == want[c] {
        assert m[vk] != [c];
      }
      assert InverseMap(m, o).Keys == want.Keys;
      assert forall c | c in want :: InverseMap(m, o)[c] == want[c];
    } else {
      assert GlyphCharsIn(m, o) == g by {
        forall c | c in GlyphCharsIn(m, o) ensures c in g {
          var i :| 0 <= i < |o| && o[i] in m && |m[o[i]]| == 1 && m[o[i]][0] == c;
          if i < |order| { assert order[i] == o[i]; }
        }
        forall c | c in g ensures c in GlyphCharsIn(m, o) {
          var i :| 0 <= i < |order| && order[i] in m && |m[order[i]]| == 1 && m[order[i]][0] == c;
          assert o[i] == order[i];
        }
      }
      forall c | c in g ensures KeysProducing(m, o, c) == KeysProducing(m, order, c) {
        assert m[vk] != [c];
      }
    }
  }

  /** A character has a non-empty list exactly when some listed key produces it alone. */
  lemma {:induction false} KeysProducingNonEmpty(m: map<KeyCode, string>, order: seq<KeyCode>, c: char)
    ensures KeysProducing(m, order, c) != [] <==> c in GlyphCharsIn(m, order)
    decreases |order|
  {
    if order != [] {
      var n := |order|;
      var p := order[..n - 1];
      KeysProducingNonEmpty(m, p, c);
      if KeysProducing(m, order, c) != [] {
        if KeysProducing(m, p, c) != [] {
          var i :| 0 <= i < |p| && p[i] in m && |m[p[i]]| == 1 && m[p[i]][0] == c;
          assert order[i] == p[i];
        } else {
          assert order[n - 1] in m && m[order[n - 1]] == [c];
        }
      }
      if c in GlyphCharsIn(m, order) {
        var i :| 0 <= i < n && order[i] in m && |m[order[i]]| == 1 && m[order[i]][0] == c;
        if i < n - 1 {
          assert p[i] == order[i];
        } else {
          assert m[order[n - 1]] == [c];
        }
      }
    }
  }

  /** A key is in the list for `c` exactly when it is listed in `order` and its glyph is `c` alone. */
  lemma {:induction false} KeysProducingMembership(m: map<KeyCode, string>, order: seq<KeyCode>, c: char)
    ensures forall vk :: vk in KeysProducing(m, order, c) <==> vk in order && vk in m && m[vk] == [c]
    decreases |order|
  {
    if order != [] {
      var p := order[..|order| - 1];
      KeysProducingMembership(m, p, c);
      assert order == p + [order[|order| - 1]];
    }
  }

  /** The first key of the list for `c` is the earliest key in `order` that produces `c`. */
  lemma {:induction false} KeysProducingFirst(m: map<KeyCode, string>, order: seq<KeyCode>, c: char)
    requires KeysProducing(m, order, c) != []
    ensures exists p :: (0 <= p < |order| && order[p] == KeysProducing(m, order, c)[0]
      && order[p] in m && m[order[p]] == [c]
      && forall q :: 0 <= q < p ==> !(order[q] in m && m[order[q]] == [c]))
    decreases |order|
  {
    var n := |order|;
    var pre := order[..n - 1];
    assert forall q :: 0 <= q < n - 1 ==> pre[q] == order[q];
    if KeysProducing(m, pre, c) != [] {
      KeysProducingFirst(m, pre, c);
      var p :| 0 <= p < |pre| && pre[p] == KeysProducing(m, pre, c)[0]
        && pre[p] in m && m[pre[p]] == [c]
        && forall q :: 0 <= q < p ==> !(pre[q] in m && pre[q] in m && m[pre[q]] == [c]);
      assert order[p] == KeysProducing(m, order, c)[0];
    } else {
      KeysProducingMembership(m, pre, c);
      forall q | 0 <= q < n - 1 ensures !(order[q] in m && m[order[q]] == [c]) {
        assert pre[q] in pre;
      }
      assert KeysProducing(m, order, c) == [order[n - 1]];
    }
  }

  /**
   * What the inverse table holds, whatever the iteration order: a character
   * has a list exactly when some key produces it as a one-character glyph; its
   * list holds exactly those keys; no list is empty; and the list starts with
   * the earliest such key in iteration order.
   */
  /** The characters the inverse table covers are the layout's one-character glyphs. */
  lemma InverseMapKeys(m: map<KeyCode, string>, order: seq<KeyCode>)
    requires Enumerates(order, m)
    ensures InverseMap(m, order).Keys == GlyphChars(m)
  {
    InverseMapMeaning(m, order);
  }

  lemma InverseMapMeaning(m: map<KeyCode, string>, order: seq<KeyCode>)
    requires Enumerates(order, m)
    ensures InverseMap(m, order).Keys == GlyphChars(m)
    ensures forall c :: c in InverseMap(m, order) ==> InverseMap(m, order)[c] != []
    ensures forall c, vk :: c in InverseMap(m, order) ==>
      (vk in InverseMap(m, order)[c] <==> vk in m && m[vk] == [c])
  {
    var inv := InverseMap(m, order);
    assert GlyphCharsIn(m, order) == GlyphChars(m) by {
      forall c | c in GlyphChars(m) ensures c in GlyphCharsIn(m, order) {
        var k :| k in m && |m[k]| == 1 && m[k][0] == c;
        var i :| 0 <= i < |order| && order[i] == k;
      }
    }
    forall c | c in inv ensures inv[c] != [] && forall vk :: vk in inv[c] <==> vk in m && m[vk] == [c] {
      KeysProducingMembership(m, order, c);
      var k :| k in m && |m[k]| == 1 && m[k][0] == c;
      assert m[k] == [c];
      assert k in inv[c];
    }
  }

  /** `invert_layout_map`: visits the table in `order`, pushing each one-character glyph's key. */
  method InvertLayoutMap(layoutMap: LayoutMap, order: seq<KeyCode>) returns (inverse: map<char, seq<KeyCode>>)
    requires Enumerates(order, layoutMap.glyphs)
    ensures inverse == InverseMap(layoutMap.glyphs, order)
  {
    var m := layoutMap.glyphs;
    inverse := map[];
    assert order[..0] == [];
    for i := 0 to |order|
      invariant inverse == InverseMap(m, order[..i])
    {
      var vk := order[i];
      var output := m[vk];
      InverseMapSnoc(m, order[..i], vk);
      assert order[..i + 1] == order[..i] + [vk];
      if |output| == 0 {
        continue;
      }
      var first := output[0];
      if |output| == 1 {
        var list := if first in inverse then inverse[first] else [];
        inverse := inverse[first := list + [vk]];
      }
    }
    assert order[..|order|] == order;
  }

  /** `invert_layout_maps`: one inverse table per layout, in the same order. */
  method InvertLayoutMaps(layoutMaps: seq<LayoutMap>, orders: seq<seq<KeyCode>>) returns (inverses: seq<map<char, seq<KeyCode>>>)
    requires |orders| == |layoutMaps|
    requires forall i :: 0 <= i < |layoutMaps| ==> Enumerates(orders[i], layoutMaps[i].glyphs)
    ensures |inverses| == |layoutMaps|
    ensures forall i :: 0 <= i < |layoutMaps| ==> inverses[i] == InverseMap(layoutMaps[i].glyphs, orders[i])
  {
    inverses := [];
    for i := 0 to |layoutMaps|
      invariant |inverses| == i
      invariant forall j :: 0 <= j < i ==> inverses[j] == InverseMap(layoutMaps[j].glyphs, orders[j])
    {
      var inverse := InvertLayoutMap(layoutMaps[i], orders[i]);
      inverses := inverses + [inverse];
    }
  }

  // ----- best layout -------------------------------------------------------

  /** `i32::MIN`, the initial best score. */
  const I32Min: int := -0x8000_0000

  /** The score of layout `j`: coverage plus direction bonus. */
  function ScoreAt(text: string, hint: Option<bool>, layouts: seq<LayoutMap>, j: nat): int
    requires j < |layouts|
  {
    CoverageScoreOf(text, GlyphChars(layouts[j].glyphs)) + DirectionBonus(hint, layouts[j].layout.direction)
  }

  /** The number of characters of the text that layout `j` recognises. */
  function MatchesAt(text: string, layouts: seq<LayoutMap>, j: nat): nat
    requires j < |layouts|
  {
    MatchCount(text, GlyphChars(layouts[j].glyphs))
  }

  /** Layout `a` strictly improves on layout `b`: a greater score, or an equal score and more matches. */
  predicate Beats(text: string, hint: Option<bool>, layouts: seq<LayoutMap>, a: nat, b: nat)
    requires a < |layouts| && b < |layouts|
  {
    ScoreAt(text, hint, layouts, a) > ScoreAt(text, hint, layouts, b)
    || (ScoreAt(text, hint, layouts, a) == ScoreAt(text, hint, layouts, b)
        && MatchesAt(text, layouts, a) > MatchesAt(text, layouts, b))
  }

  /** The running best of the selection loop: index, score and matches. */
  datatype Best = Best(idx: Option<nat>, score: int, matches: nat)

  /** The running best after the loop has looked at the first `n` layouts. */
  function Scan(text: string, hint: Option<bool>, layouts: seq<LayoutMap>, n: nat): (b: Best)
    requires n <= |layouts|
    ensures b.idx.None? ==> b.score == I32Min && b.matches == 0
    ensures b.idx.Some? ==> (b.idx.value < n && b.score == ScoreAt(text, hint, layouts, b.idx.value)
      && b.matches == MatchesAt(text, layouts, b.idx.value))
  {
    if n == 0 then Best(None, I32Min, 0)
    else
      var b := Scan(text, hint, layouts, n - 1);
      var score := ScoreAt(text, hint, layouts, n - 1);
      var matches := MatchesAt(text, layouts, n - 1);
      if score > b.score || (score == b.score && matches > b.matches) then Best(Some(n - 1), score, matches)
      else b
  }

  /** What `get_text_leyaout_map` returns: the loop's best layout, unless it recognises nothing. */
  function MatchLayout(text: string, layouts: seq<LayoutMap>, isRtl: char -> bool): (r: Option<nat>)
    ensures r.Some? ==> r.value < |layouts| && MatchesAt(text, layouts, r.value) > 0
  {
    var b := Scan(text, DirectionHint(text, isRtl), layouts, |layouts|);
    if b.matches == 0 then None else b.idx
  }

  /**
   * `get_text_leyaout_map`: scores every layout and keeps the first strict
   * improvement; it returns the index of the chosen layout in `layoutMaps`.
   */
  method GetTextLayoutMap(text: string, layoutMaps: seq<LayoutMap>, orders: seq<seq<KeyCode>>, isRtl: char -> bool)
    returns (r: Option<nat>)
    requires |orders| == |layoutMaps|
    requires forall i :: 0 <= i < |layoutMaps| ==> Enumerates(orders[i], layoutMaps[i].glyphs)
    ensures r == MatchLayout(text, layoutMaps, isRtl)
  {
    var textDir := TextStartsRtl(text, isRtl);
    var inverses := InvertLayoutMaps(layoutMaps, orders);
    var bestIdx: Option<nat> := None;
    var bestScore: int := I32Min;
    var bestMatches: nat := 0;
    for idx := 0 to |layoutMaps|
      invariant Best(bestIdx, bestScore, bestMatches) == Scan(text, textDir, layoutMaps, idx)
    {
      var inverse := inverses[idx];
      InverseMapKeys(layoutMaps[idx].glyphs, orders[idx]);
      var score, matches := CoverageScore(text, inverse);
      score := score + DirectionBonus(textDir, layoutMaps[idx].layout.direction);
      assert score == ScoreAt(text, textDir, layoutMaps, idx) && matches == MatchesAt(text, layoutMaps, idx);
      if score > bestScore || (score == bestScore && matches > bestMatches) {
        bestScore := score;
        bestIdx := Some(idx);
        bestMatches := matches;
      }
    }
    if bestMatches == 0 {
      return None;
    }
    return bestIdx;
  }

  /**
   * The longest text whose score fits in an `i32`, plus one: the coverage
   * score is at most twice the length and the direction bonus at most 5, and
   * 2 * (2^30 - 3) + 5 == 2^31 - 1.
   */
  const MaxScoredText: int := 0x3FFF_FFFE

  /** `i32::MAX`. */
  const I32Max: int := 0x7FFF_FFFF

  /**
   * For texts shorter than `MaxScoredText` every score is a valid `i32`
   * above the initial `i32::MIN`, so adding the direction bonus cannot overflow.
   */
  lemma ScoreAboveSentinel(text: string, hint: Option<bool>, layouts: seq<LayoutMap>, j: nat)
    requires j < |layouts| && |text| < MaxScoredText
    ensures I32Min < ScoreAt(text, hint, layouts, j) <= I32Max
  {
    MatchesAndMisses(text, GlyphChars(layouts[j].glyphs));
  }

  /** After `n > 0` layouts the running best is a layout no earlier layout matches and none beats. */
  lemma {:induction false} ScanIsBest(text: string, hint: Option<bool>, layouts: seq<LayoutMap>, n: nat)
    requires 0 < n <= |layouts| && |text| < MaxScoredText
    ensures Scan(text, hint, layouts, n).idx.Some?
    ensures var w := Scan(text, hint, layouts, n).idx.value;
      && (forall j :: 0 <= j < n ==> !Beats(text, hint, layouts, j, w))
      && (forall j :: 0 <= j < w ==> Beats(text, hint, layouts, w, j))
  {
    ScoreAboveSentinel(text, hint, layouts, n - 1);
    if n > 1 {
      ScanIsBest(text, hint, layouts, n - 1);
      var prev := Scan(text, hint, layouts, n - 1).idx.value;
      if Beats(text, hint, layouts, n - 1, prev) {
        assert Scan(text, hint, layouts, n).idx == Some(n - 1);
        var last := n - 1;
        forall j | 0 <= j < last ensures Beats(text, hint, layouts, last, j) {
          if j < prev {
            BeatsTransitive(text, hint, layouts, last, prev, j);
          } else {
            BeatsOverNotBeaten(text, hint, layouts, last, prev, j);
          }
        }
        forall j | 0 <= j < last ensures !Beats(text, hint, layouts, j, last) {
          BeatsOverNotBeaten(text, hint, layouts, last, prev, j);
        }
      } else {
        assert Scan(text, hint, layouts, n).idx == Some(prev);
      }
    }
  }

  lemma BeatsTransitive(text: string, hint: Option<bool>, layouts: seq<LayoutMap>, a: nat, b: nat, c: nat)
    requires a < |layouts| && b < |layouts| && c < |layouts|
    requires Beats(text, hint, layouts, a, b) && Beats(text, hint, layouts, b, c)
    ensures Beats(text, hint, layouts, a, c)
  {
  }

  /** Beating a layout that `c` does not beat means beating `c` too, and not being beaten by it. */
  lemma BeatsOverNotBeaten(text: string, hint: Option<bool>, layouts: seq<LayoutMap>, a: nat, b: nat, c: nat)
    requires a < |layouts| && b < |layouts| && c < |layouts|
    requires Beats(text, hint, layouts, a, b) && !Beats(text, hint, layouts, c, b)
    ensures Beats(text, hint, layouts, a, c) && !Beats(text, hint, layouts, c, a)
  {
  }

  /** Layout `j` has a score no other layout exceeds. */
  predicate TopScore(text: string, hint: Option<bool>, layouts: seq<LayoutMap>, j: nat)
    requires j < |layouts|
  {
    forall k :: 0 <= k < |layouts| ==> ScoreAt(text, hint, layouts, k) <= ScoreAt(text, hint, layouts, j)
  }

  /**
   * What the chosen layout is: no layout beats it (a greater total score, or an
   * equal score with more matches), every earlier layout is strictly worse,
   * and it recognises at least one character. There is no choice exactly when
   * there are no layouts or every top-scoring layout recognises nothing.
   */
  lemma MatchLayoutIsBest(text: string, layouts: seq<LayoutMap>, isRtl: char -> bool)
    requires |text| < MaxScoredText
    ensures var hint := DirectionHint(text, isRtl); var r := MatchLayout(text, layouts, isRtl);
      && (r.None? <==> |layouts| == 0 || forall j :: 0 <= j < |layouts| && TopScore(text, hint, layouts, j)
                                                     ==> MatchesAt(text, layouts, j) == 0)
      && (r.Some? ==>
            && r.value < |layouts| && MatchesAt(text, layouts, r.value) > 0
            && (forall j :: 0 <= j < |layouts| ==> !Beats(text, hint, layouts, j, r.value))
            && (forall j :: 0 <= j < r.value ==> Beats(text, hint, layouts, r.value, j)))
  {
    var hint := DirectionHint(text, isRtl);
    if |layouts| > 0 {
      ScanIsBest(text, hint, layouts, |layouts|);
      var w := Scan(text, hint, layouts, |layouts|).idx.value;
      assert TopScore(text, hint, layouts, w) by {
        forall k | 0 <= k < |layouts| ensures ScoreAt(text, hint, layouts, k) <= ScoreAt(text, hint, layouts, w) {
          assert !Beats(text, hint, layouts, k, w);
        }
      }
      forall j | 0 <= j < |layouts| && TopScore(text, hint, layouts, j) && MatchesAt(text, layouts, w) == 0
        ensures MatchesAt(text, layouts, j) == 0
      {
        assert !Beats(text, hint, layouts, j, w);
      }
    }
  }

  /** When no layout recognises any character of the text, no layout is chosen. */
  lemma UnrecognisedTextIsUndetermined(text: string, layouts: seq<LayoutMap>, isRtl: char -> bool)
    requires forall j, i :: 0 <= j < |layouts| && 0 <= i < |text| && !IsControl(text[i])
               ==> text[i] !in GlyphChars(layouts[j].glyphs)
    ensures MatchLayout(text, layouts, isRtl) == None
  {
    if MatchLayout(text, layouts, isRtl).Some? {
      var w := MatchLayout(text, layouts, isRtl).value;
      MatchCountPositive(text, GlyphChars(layouts[w].glyphs));
    }
  }

  // ----- remapping ---------------------------------------------------------

  /**
   * What one character becomes: the target glyph of the first key listed
   * for it, unless it has no key, or that key has no glyph or an empty one in
   * the target; then the character itself.
   */
  function SubstituteChar(c: char, inverse: map<char, seq<KeyCode>>, target: map<KeyCode, string>): string {
    if c in inverse && |inverse[c]| > 0 && inverse[c][0] in target && |target[inverse[c][0]]| > 0
    then target[inverse[c][0]]
    else [c]
  }

  /** The `chars().map(...).collect()` of `shift_text_language`. */
  function Substitute(text: string, inverse: map<char, seq<KeyCode>>, target: map<KeyCode, string>): string
    decreases |text|
  {
    if text == [] then [] else SubstituteChar(text[0], inverse, target) + Substitute(text[1..], inverse, target)
  }

  /** `reverse_text_direction`: the code points in reverse order. */
  function ReverseText(s: string): (r: string)
    ensures |r| == |s|
    ensures forall i :: 0 <= i < |s| ==> r[i] == s[|s| - 1 - i]
    decreases |s|
  {
    if s == [] then [] else [s[|s| - 1]] + ReverseText(s[..|s| - 1])
  }

  lemma ReverseTextInvolution(s: string)
    ensures ReverseText(ReverseText(s)) == s
  {
  }

  /**
   * `shift_text_language`: re-types `text` typed under `current` as it would
   * come out under `target`, then reverses it when the two directions differ.
   * `order` is the iteration order of `current`'s table.
   */
  function ShiftTextLanguage(text: string, current: LayoutMap, target: LayoutMap, order: seq<KeyCode>): string {
    var s := Substitute(text, InverseMap(current.glyphs, order), target.glyphs);
    if current.layout.direction != target.layout.direction then ReverseText(s) else s
  }

  /**
   * Each character is replaced through the earliest key (in iteration order)
   * that produces it alone on the current layout, by that key's non-empty
   * target glyph; a character no key produces, or whose key has no non-empty
   * target glyph, stays as it is.
   */
  lemma SubstituteCharMeaning(c: char, current: map<KeyCode, string>, target: map<KeyCode, string>, order: seq<KeyCode>)
    requires Enumerates(order, current)
    ensures c !in GlyphChars(current) ==> SubstituteChar(c, InverseMap(current, order), target) == [c]
    ensures c in GlyphChars(current) ==> exists p ::
      && 0 <= p < |order| && current[order[p]] == [c]
      && (forall q :: 0 <= q < p ==> current[order[q]] != [c])
      && SubstituteChar(c, InverseMap(current, order), target)
         == if order[p] in target && target[order[p]] != [] then target[order[p]] else [c]
  {
    InverseMapMeaning(current, order);
    var inv := InverseMap(current, order);
    if c in GlyphChars(current) {
      var ks := KeysProducing(current, order, c);
      assert inv[c] == ks;
      KeysProducingFirst(current, order, c);
      var p :| 0 <= p < |order| && order[p] == ks[0]
        && order[p] in current && current[order[p]] == [c]
        && forall q :: 0 <= q < p ==> !(order[q] in current && current[order[q]] == [c]);
      assert forall q :: 0 <= q < p ==> current[order[q]] != [c];
      assert SubstituteChar(c, inv, target)
        == if order[p] in target && target[order[p]] != [] then target[order[p]] else [c];
    }
  }

  /** When every target glyph is at most one character, re-typing keeps the length of the text. */
  lemma {:induction false} SubstituteKeepsLength(text: string, inverse: map<char, seq<KeyCode>>, target: map<KeyCode, string>)
    requires forall k :: k in target ==> |target[k]| <= 1
    ensures |Substitute(text, inverse, target)| == |text|
    decreases |text|
  {
    if text != [] {
      SubstituteKeepsLength(text[1..], inverse, target);
    }
  }

  lemma ShiftKeepsLength(text: string, current: LayoutMap, target: LayoutMap, order: seq<KeyCode>)
    requires forall k :: k in target.glyphs ==> |target.glyphs[k]| <= 1
    ensures |ShiftTextLanguage(text, current, target, order)| == |text|
  {
    SubstituteKeepsLength(text, InverseMap(current.glyphs, order), target.glyphs);
  }

  /** Re-typing through a layout's own table changes nothing. */
  lemma {:induction false} SubstituteSelf(text: string, m: map<KeyCode, string>, order: seq<KeyCode>)
    requires Enumerates(order, m)
    ensures Substitute(text, InverseMap(m, order), m) == text
    decreases |text|
  {
    if text != [] {
      InverseMapMeaning(m, order);
      var inv := InverseMap(m, order);
      var c := text[0];
      if c in inv {
        assert inv[c][0] in inv[c];
      }
      assert SubstituteChar(c, inv, m) == [c];
      SubstituteSelf(text[1..], m, order);
      assert text == [c] + text[1..];
    }
  }

  /** Shifting from a layout to the same layout returns the text unchanged. */
  lemma ShiftToSameLayout(text: string, lm: LayoutMap, order: seq<KeyCode>)
    requires Enumerates(order, lm.glyphs)
    ensures ShiftTextLanguage(text, lm, lm, order) == text
  {
    SubstituteSelf(text, lm.glyphs, order);
  }

  /** One character whose target glyphs are all single characters becomes exactly one character. */
  lemma SubstituteCharSingle(c: char, inverse: map<char, seq<KeyCode>>, target: map<KeyCode, string>)
    requires forall k :: k in target ==> |target[k]| <= 1
    ensures |SubstituteChar(c, inverse, target)| == 1
  {
  }

  /** With single-character target glyphs, position `i` of the result is the substitute of position `i`. */
  lemma {:induction false} SubstituteAt(text: string, inverse: map<char, seq<KeyCode>>, target: map<KeyCode, string>)
    requires forall k :: k in target ==> |target[k]| <= 1
    ensures |Substitute(text, inverse, target)| == |text|
    ensures forall i :: 0 <= i < |text| ==> Substitute(text, inverse, target)[i] == SubstituteChar(text[i], inverse, target)[0]
    decreases |text|
  {
    if text != [] {
      SubstituteAt(text[1..], inverse, target);
      SubstituteCharSingle(text[0], inverse, target);
      var r := Substitute(text, inverse, target);
      forall i | 0 <= i < |text| ensures r[i] == SubstituteChar(text[i], inverse, target)[0] {
        if i > 0 {
          assert text[1..][i - 1] == text[i];
        }
      }
    }
  }

  /**
   * With single-character target glyphs, the shifted text keeps the length of
   * the text, and its character at position `i` is the substitute of the
   * character at `i` when the two directions agree and of the character at the
   * mirrored position when they differ.
   */
  lemma ShiftPositions(text: string, current: LayoutMap, target: LayoutMap, order: seq<KeyCode>)
    requires forall k :: k in target.glyphs ==> |target.glyphs[k]| <= 1
    ensures var r := ShiftTextLanguage(text, current, target, order);
      var inv := InverseMap(current.glyphs, order);
      && |r| == |text|
      && (current.layout.direction == target.layout.direction ==>
            forall i :: 0 <= i < |text| ==> r[i] == SubstituteChar(text[i], inv, target.glyphs)[0])
      && (current.layout.direction != target.layout.direction ==>
            forall i :: 0 <= i < |text| ==> r[i] == SubstituteChar(text[|text| - 1 - i], inv, target.glyphs)[0])
  {
    SubstituteAt(text, InverseMap(current.glyphs, order), target.glyphs);
  }

  /** An English and a Russian layout sharing the key codes 30 and 31. */
  const English: LayoutMap := LayoutMap(KeyboardLayout("en", LTR), map[30 := "a", 31 := "s"])
  const Russian: LayoutMap := LayoutMap(KeyboardLayout("ru", LTR), map[30 := "\U{444}", 31 := "\U{44b}"])
  const Hebrew: LayoutMap := LayoutMap(KeyboardLayout("he", RTL), map[30 := "\U{5e9}", 31 := "\U{5d3}"])

  /** The inverse over a single key with a one-character glyph. */
  lemma InverseMapOfOne(m: map<KeyCode, string>, vk: KeyCode)
    requires vk in m && |m[vk]| == 1
    ensures InverseMap(m, [vk]) == map[m[vk][0] := [vk]]
  {
    assert GlyphCharsIn(m, []) == {};
    assert InverseMap(m, []) == map[];
    InverseMapSnoc(m, [], vk);
    assert [] + [vk] == [vk];
  }

  /** The inverse of a table with two distinct one-character glyphs on keys 30 and 31. */
  lemma InverseMapOfTwo(m: map<KeyCode, string>)
    requires m.Keys == {30, 31} && |m[30]| == 1 && |m[31]| == 1 && m[30] != m[31]
    ensures InverseMap(m, [30, 31]) == map[m[30][0] := [30], m[31][0] := [31]]
  {
    InverseMapOfOne(m, 30);
    var inv1 := InverseMap(m, [30]);
    assert m[30][0] != m[31][0] by {
      assert m[30] == [m[30][0]] && m[31] == [m[31][0]];
    }
    assert m[31][0] !in inv1;
    InverseMapSnoc(m, [30], 31);
    assert [30] + [31] == [30, 31] && [] + [31] == [31];
    assert InverseMap(m, [30, 31]) == inv1[m[31][0] := [31]];
  }

  /** "фы" typed on the Russian layout is "as" on the English one. */
  lemma RussianToEnglish()
    ensures ShiftTextLanguage("\U{444}\U{44b}", Russian, English, [30, 31]) == "as"
  {
    InverseMapOfTwo(Russian.glyphs);
  }

  /** Shifting "as" from English to Hebrew re-types it and reverses it, since the directions differ. */
  lemma EnglishToHebrew()
    ensures ShiftTextLanguage("as", English, Hebrew, [30, 31]) == "\U{5d3}\U{5e9}"
  {
    InverseMapOfTwo(English.glyphs);
  }
}
