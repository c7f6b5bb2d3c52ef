/**
 * The top level of the program (src/lib.rs): one "shift the highlighted
 * text to the next layout" action, and the validated hotkey setting.
 *
 * The selection source, the layout catalogue and the selection sink are
 * inputs: the highlighted text (if any), the layout tables with the
 * iteration order of each, and the outcome the sink reports for a given
 * replacement text.
 */
module App {
  import opened Wrappers
  import opened Strings
  import opened Layouts
  import opened Remap
  import opened Hotkey

  // ----- rotation ----------------------------------------------------------

  predicate HasLayoutNamed(layouts: seq<LayoutMap>, name: string) {
    exists i :: 0 <= i < |layouts| && layouts[i].layout.langName == name
  }

  /**
   * `skip_while` over the layouts from position `k`: the first position at
   * or after `k` whose layout is called `name`.
   */
  function SkipWhileOther(layouts: seq<LayoutMap>, name: string, k: nat): (i: nat)
    requires exists j :: k <= j < |layouts| && layouts[j].layout.langName == name
    ensures k <= i < |layouts| && layouts[i].layout.langName == name
    ensures forall j :: k <= j < i ==> layouts[j].layout.langName != name
    decreases |layouts| - k
  {
    if layouts[k].layout.langName == name then k else SkipWhileOther(layouts, name, k + 1)
  }

  /** The first position of a layout called `name`. */
  function FirstNamed(layouts: seq<LayoutMap>, name: string): (i: nat)
    requires HasLayoutNamed(layouts, name)
    ensures i < |layouts| && layouts[i].layout.langName == name
    ensures forall j :: 0 <= j < i ==> layouts[j].layout.langName != name
  {
    SkipWhileOther(layouts, name, 0)
  }

  /**
   * `iter().cycle().skip_while(name differs).skip(1).next()`: the position
   * after the first layout called `name`, going round to the start after the
   * last; nothing when there are no layouts. With layouts but no layout of
   * that name the chain never ends, so that case is excluded.
   */
  function NextLayout(layouts: seq<LayoutMap>, name: string): (r: Option<nat>)
    requires layouts == [] || HasLayoutNamed(layouts, name)
    ensures r.None? <==> layouts == []
    ensures r.Some? ==> r.value < |layouts|
  {
    if layouts == [] then None
    else
      var f := FirstNamed(layouts, name);
      Some(if f + 1 < |layouts| then f + 1 else 0)
  }

  /** The position before `n` going round: the last one before the first. */
  function CyclicPredecessor(n: nat, count: nat): nat
    requires n < count
  {
    if n == 0 then count - 1 else n - 1
  }

  /**
   * The chosen position is the cyclic successor of the first layout called
   * `name`: its cyclic predecessor carries that name and no earlier layout does.
   */
  lemma NextLayoutFollowsFirst(layouts: seq<LayoutMap>, name: string)
    requires HasLayoutNamed(layouts, name)
    ensures var p := CyclicPredecessor(NextLayout(layouts, name).value, |layouts|);
      && layouts[p].layout.langName == name
      && forall j :: 0 <= j < p ==> layouts[j].layout.langName != name
  {
  }

  /** When the first layout of that name is the last one, the rotation wraps round to the first layout. */
  lemma NextLayoutWraps(layouts: seq<LayoutMap>, name: string)
    requires |layouts| > 0 && layouts[|layouts| - 1].layout.langName == name
    requires forall j :: 0 <= j < |layouts| - 1 ==> layouts[j].layout.langName != name
    ensures NextLayout(layouts, name) == Some(0)
  {
    var last := |layouts| - 1;
    assert HasLayoutNamed(layouts, name) by { assert layouts[last].layout.langName == name; }
    assert FirstNamed(layouts, name) == last;
  }

  /** A single layout is its own successor. */
  lemma NextLayoutSingle(layouts: seq<LayoutMap>)
    requires |layouts| == 1
    ensures NextLayout(layouts, layouts[0].layout.langName) == Some(0)
  {
    NextLayoutWraps(layouts, layouts[0].layout.langName);
  }

  /** Only the first layout with a name matters: a later duplicate name is never the starting point. */
  lemma NextLayoutAfterFirstDuplicate(layouts: seq<LayoutMap>, i: nat, name: string)
    requires i + 1 < |layouts| && layouts[i].layout.langName == name
    requires forall j :: 0 <= j < i ==> layouts[j].layout.langName != name
    ensures NextLayout(layouts, name) == Some(i + 1)
  {
    assert HasLayoutNamed(layouts, name) by { assert layouts[i].layout.langName == name; }
    assert FirstNamed(layouts, name) == i;
  }

  // ----- shift_highlighted_text_to_next_layout ------------------------------

  /**
   * What one run of the action does: whether the layout catalogue was
   * consulted, the text handed to the sink (if the sink was called), and the
   * action's result.
   */
  datatype Outcome = Outcome(fetchedLayouts: bool, replacedWith: Option<string>, result: Result<Unit>)

  const NoHighlight := "No text is currently highlighted"
  const Undetermined := "Could not determine the layout of the highlighted text"
  const NoNextLayout := "No next layout found"

  /**
   * `shift_highlighted_text_to_next_layout`: take the highlighted text,
   * recognise its layout, re-type it for the next layout in the rotation
   * and hand the result to the sink, returning the sink's verdict.
   * `orders[i]` is the iteration order of `layoutMaps[i]`'s table and
   * `replace` is the sink.
   */
  function ShiftHighlightedText(highlighted: Option<string>, layoutMaps: seq<LayoutMap>,
                                orders: seq<seq<KeyCode>>, isRtl: char -> bool,
                                replace: string -> Result<Unit>): Outcome
    requires |orders| == |layoutMaps|
  {
    match highlighted
    case None => Outcome(false, None, Err(NoHighlight))
    case Some(text) =>
      match MatchLayout(text, layoutMaps, isRtl)
      case None => Outcome(true, None, Err(Undetermined))
      case Some(c) =>
        assert HasLayoutNamed(layoutMaps, layoutMaps[c].layout.langName);
        match NextLayout(layoutMaps, layoutMaps[c].layout.langName)
        case None => Outcome(true, None, Err(NoNextLayout))
        case Some(n) =>
          var shifted := ShiftTextLanguage(text, layoutMaps[c], layoutMaps[n], orders[c]);
          Outcome(true, Some(shifted), replace(shifted))
  }

  /** Without highlighted text the action fails at once: no layouts are fetched and nothing is replaced. */
  lemma NothingHighlighted(layoutMaps: seq<LayoutMap>, orders: seq<seq<KeyCode>>, isRtl: char -> bool,
                           replace: string -> Result<Unit>)
    requires |orders| == |layoutMaps|
    ensures ShiftHighlightedText(None, layoutMaps, orders, isRtl, replace)
      == Outcome(false, None, Err("No text is currently highlighted"))
  {
  }

  /**
   * The action reaches the sink exactly when some text is highlighted and
   * its layout is recognised; otherwise it fails with the message for the
   * step that stopped it and replaces nothing.
   */
  lemma ReplacesIffRecognised(highlighted: Option<string>, layoutMaps: seq<LayoutMap>,
                              orders: seq<seq<KeyCode>>, isRtl: char -> bool, replace: string -> Result<Unit>)
    requires |orders| == |layoutMaps|
    ensures var o := ShiftHighlightedText(highlighted, layoutMaps, orders, isRtl, replace);
      && (o.replacedWith.Some? <==> highlighted.Some? && MatchLayout(highlighted.value, layoutMaps, isRtl).Some?)
      && (highlighted.Some? && MatchLayout(highlighted.value, layoutMaps, isRtl).None? ==>
            o == Outcome(true, None, Err("Could not determine the layout of the highlighted text")))
      && (o.replacedWith.Some? ==> o.fetchedLayouts && o.result == replace(o.replacedWith.value))
  {
  }

  /**
   * When the sink is reached, it receives the highlighted text fully shifted
   * from the recognised layout to the cyclic successor of the first layout of
   * the same name, and its error, if any, is the action's error; the
   * "No next layout found" failure never occurs.
   */
  lemma ReplacesWithShiftedText(text: string, layoutMaps: seq<LayoutMap>, orders: seq<seq<KeyCode>>,
                                isRtl: char -> bool, replace: string -> Result<Unit>)
    requires |orders| == |layoutMaps| && MatchLayout(text, layoutMaps, isRtl).Some?
    ensures var c := MatchLayout(text, layoutMaps, isRtl).value;
      var o := ShiftHighlightedText(Some(text), layoutMaps, orders, isRtl, replace);
      && o.replacedWith.Some?
      && o.result == replace(o.replacedWith.value)
      && exists n :: (0 <= n < |layoutMaps|
           && layoutMaps[CyclicPredecessor(n, |layoutMaps|)].layout.langName == layoutMaps[c].layout.langName
           && (forall j :: 0 <= j < CyclicPredecessor(n, |layoutMaps|) ==>
                 layoutMaps[j].layout.langName != layoutMaps[c].layout.langName)
           && o.replacedWith.value == ShiftTextLanguage(text, layoutMaps[c], layoutMaps[n], orders[c]))
  {
    var c := MatchLayout(text, layoutMaps, isRtl).value;
    var name := layoutMaps[c].layout.langName;
    assert HasLayoutNamed(layoutMaps, name);
    NextLayoutFollowsFirst(layoutMaps, name);
    var n := NextLayout(layoutMaps, name).value;
    assert 0 <= n < |layoutMaps|;
  }

  /** With a single layout that recognises the text, the text is replaced by itself. */
  lemma SingleLayoutKeepsText(text: string, layoutMap: LayoutMap, order: seq<KeyCode>, isRtl: char -> bool,
                              replace: string -> Result<Unit>)
    requires Enumerates(order, layoutMap.glyphs) && MatchLayout(text, [layoutMap], isRtl).Some?
    ensures ShiftHighlightedText(Some(text), [layoutMap], [order], isRtl, replace)
      == Outcome(true, Some(text), replace(text))
  {
    NextLayoutSingle([layoutMap]);
    ShiftToSameLayout(text, layoutMap, order);
  }

  // ----- HotkeySpec ---------------------------------------------------------

  /** `HotkeySpec`: the hotkey as it is stored and shown. */
  datatype HotkeySpec = HotkeySpec(display: string)

  /** `HotkeySpec::from_display`: a blank input is refused, anything else is stored normalised. */
  function FromDisplay(value: string): Result<HotkeySpec> {
    var trimmed := Trim(value);
    if trimmed == [] then Err("Hotkey cannot be empty")
    else Ok(HotkeySpec(NormalizeDisplay(trimmed)))
  }

  /**
   * A stored hotkey is accepted as it is: feeding its display string back in
   * gives the same setting, and a stored display string is never blank.
   */
  lemma FromDisplayIdempotent(value: string)
    requires FromDisplay(value).Ok?
    ensures FromDisplay(value).value.display != []
    ensures FromDisplay(FromDisplay(value).value.display) == FromDisplay(value)
  {
    var t := Trim(value);
    var d := NormalizeDisplay(t);
    TrimIdempotent(value);
    NormalizeDisplayUnpadded(t);
    TrimIdentity(d);
    NormalizeDisplayIdempotent(t);
  }

  /** A stored hotkey parses exactly as the (trimmed) input it came from. */
  lemma FromDisplayParsesAlike(value: string)
    requires FromDisplay(value).Ok?
    ensures ParseDisplaySpec(FromDisplay(value).value.display).Ok? == ParseDisplaySpec(Trim(value)).Ok?
    ensures ParseDisplaySpec(Trim(value)).Ok? ==>
      ParseDisplaySpec(FromDisplay(value).value.display) == ParseDisplaySpec(Trim(value))
  {
    NormalizeDisplayParses(Trim(value));
  }

  /**
   * The one error of `from_display`: an input that is all white space,
   * the empty input included, is refused with "Hotkey cannot be empty";
   * any other input is stored.
   */
  lemma FromDisplayBlank(value: string)
    ensures FromDisplay(value).Err? <==> forall k :: 0 <= k < |value| ==> IsWhitespace(value[k])
    ensures FromDisplay(value).Err? ==> FromDisplay(value).error == "Hotkey cannot be empty"
  {
    var i, j := TrimIsInfix(value);
    if Trim(value) != [] {
      assert value[i] == Trim(value)[0];
    }
  }
}
