/**
 * What `load_ini` and `save_ini` promise each other: the text `save_ini`
 * writes for a well-formed table loads back as that table, and every table
 * `load_ini` produces is well-formed, so loading what was saved is lossless.
 */
module KdeFormat {
  import opened Wrappers
  import opened Strings
  import opened OrderedMaps
  import opened Kde

  // ----- well-formed tables ------------------------------------------------

  /** A group name that survives "[g]": no line break, no bracket at either end. */
  predicate GoodGroup(g: string) {
    '\n' !in g && (g == [] || (!IsBracket(g[0]) && !IsBracket(g[|g| - 1])))
  }

  /**
   * An entry whose "k=v" line reads back as itself: no line break, a key
   * without '=' that is not a comment, both sides trimmed, and a line that
   * does not look like a group header.
   */
  predicate GoodEntry(k: string, v: string) {
    && '\n' !in k && '=' !in k && Unpadded(k)
    && !StartsWithChar(k, '#') && !StartsWithChar(k, ';')
    && '\n' !in v && Unpadded(v)
    && !IsHeader(EntryLine(k, v))
  }

  /** A table as `load_ini` builds it. */
  predicate Wellformed(t: Table) {
    && ValidTable(t)
    && forall p :: p in t ==> GoodGroup(p.0) && forall e :: e in p.1 ==> GoodEntry(e.0, e.1)
  }

  lemma WellformedPrefix(t: Table, n: nat)
    requires Wellformed(t) && n <= |t|
    ensures Wellformed(t[..n])
  {
    assert forall p :: p in t[..n] ==> p in t;
  }

  // ----- the lines save_ini writes ------------------------------------------

  /** The entry lines of a group, without their line breaks. */
  function EntryLines(es: Entries): (r: seq<string>)
    ensures |r| == |es| && forall j :: 0 <= j < |es| ==> r[j] == EntryLine(es[j].0, es[j].1)
  {
    seq(|es|, j requires 0 <= j < |es| => EntryLine(es[j].0, es[j].1))
  }

  function GroupLines(g: string, es: Entries): seq<string> {
    [HeaderLine(g)] + EntryLines(es)
  }

  /** The lines of the text `save_ini` writes. */
  function TableLines(t: Table): seq<string>
    decreases |t|
  {
    if t == [] then [] else TableLines(t[..|t| - 1]) + GroupLines(t[|t| - 1].0, t[|t| - 1].1)
  }

  lemma {:induction false} RenderEntriesLines(es: Entries)
    ensures RenderEntries(es) == Unlines(EntryLines(es))
    decreases |es|
  {
    if es != [] {
      var m := |es| - 1;
      RenderEntriesLines(es[..m]);
      var line := EntryLine(es[m].0, es[m].1);
      assert EntryLines(es) == EntryLines(es[..m]) + [line];
      UnlinesAppend(EntryLines(es[..m]), [line]);
      assert Unlines([line]) == line + "\n";
    }
  }

  /** The text `save_ini` writes is its lines, each ended by '\n'. */
  lemma {:induction false} RenderTableLines(t: Table)
    ensures RenderTable(t) == Unlines(TableLines(t))
    decreases |t|
  {
    if t != [] {
      var n := |t| - 1;
      var (g, es) := t[n];
      RenderTableLines(t[..n]);
      RenderEntriesLines(es);
      UnlinesAppend(TableLines(t[..n]), GroupLines(g, es));
      assert GroupLines(g, es)[1..] == EntryLines(es);
      assert Unlines(GroupLines(g, es)) == HeaderLine(g) + "\n" + Unlines(EntryLines(es));
    }
  }

  lemma HeaderIsLine(g: string)
    requires GoodGroup(g)
    ensures IsLine(HeaderLine(g))
  {
    assert HeaderLine(g) == ['['] + g + [']'];
  }

  lemma EntryIsLine(k: string, v: string)
    requires GoodEntry(k, v)
    ensures IsLine(EntryLine(k, v))
  {
    var line := EntryLine(k, v);
    assert line == k + ['='] + v;
    assert line[|line| - 1] == if v == [] then '=' else v[|v| - 1];
  }

  lemma {:induction false} TableLinesAreLines(t: Table)
    requires Wellformed(t)
    ensures forall i :: 0 <= i < |TableLines(t)| ==> IsLine(TableLines(t)[i])
    decreases |t|
  {
    if t != [] {
      var n := |t| - 1;
      var (g, es) := t[n];
      WellformedPrefix(t, n);
      TableLinesAreLines(t[..n]);
      assert t[n] in t;
      HeaderIsLine(g);
      forall j | 0 <= j < |es| ensures IsLine(EntryLines(es)[j]) {
        assert es[j] in es;
        EntryIsLine(es[j].0, es[j].1);
      }
      var a := TableLines(t[..n]);
      var b := GroupLines(g, es);
      forall i | 0 <= i < |a + b| ensures IsLine((a + b)[i]) {
        if i >= |a| + 1 {
          assert (a + b)[i] == EntryLines(es)[i - |a| - 1];
        }
      }
    }
  }

  // ----- load_ini, line by line ----------------------------------------------

  lemma {:induction false} LoadLinesAppend(st: LoadState, a: seq<string>, b: seq<string>)
    ensures LoadLines(st, a + b) == LoadLines(LoadLines(st, a), b)
    decreases |b|
  {
    if b == [] {
      assert a + b == a;
    } else {
      var m := |b| - 1;
      assert (a + b)[..|a + b| - 1] == a + b[..m];
      LoadLinesAppend(st, a, b[..m]);
    }
  }

  lemma {:induction false} TrimStartBracketsFacts(s: string)
    ensures |TrimStartBrackets(s)| <= |s| && TrimStartBrackets(s) == s[|s| - |TrimStartBrackets(s)|..]
    ensures TrimStartBrackets(s) == [] || !IsBracket(TrimStartBrackets(s)[0])
    decreases |s|
  {
    if |s| > 0 && IsBracket(s[0]) {
      TrimStartBracketsFacts(s[1..]);
    }
  }

  lemma {:induction false} TrimEndBracketsFacts(s: string)
    ensures |TrimEndBrackets(s)| <= |s| && TrimEndBrackets(s) == s[..|TrimEndBrackets(s)|]
    ensures TrimEndBrackets(s) == [] || !IsBracket(TrimEndBrackets(s)[|TrimEndBrackets(s)| - 1])
    decreases |s|
  {
    if |s| > 0 && IsBracket(s[|s| - 1]) {
      TrimEndBracketsFacts(s[..|s| - 1]);
    }
  }

  /** A group name read from a header line has no line break and no bracket at either end. */
  lemma TrimBracketsGood(line: string)
    requires '\n' !in line
    ensures GoodGroup(TrimBrackets(line))
  {
    var ts := TrimStartBrackets(line);
    TrimStartBracketsFacts(line);
    TrimEndBracketsFacts(ts);
    var r := TrimBrackets(line);
    assert r == ts[..|r|];
    assert '\n' !in ts;
  }

  /** The name inside a written header comes back. */
  lemma HeaderBrackets(g: string)
    requires GoodGroup(g)
    ensures TrimBrackets(HeaderLine(g)) == g
  {
    var h := HeaderLine(g);
    assert h[1..] == g + "]";
    assert TrimStartBrackets(h) == TrimStartBrackets(g + "]");
    if g == [] {
      assert TrimStartBrackets("]") == TrimStartBrackets([]);
    } else {
      assert TrimStartBrackets(g + "]") == g + "]";
      assert (g + "]")[..|g|] == g;
      assert TrimEndBrackets(g + "]") == TrimEndBrackets(g);
    }
  }

  /** A written header line opens its group and changes nothing else. */
  lemma LoadHeader(st: LoadState, g: string)
    requires GoodGroup(g)
    ensures LoadStep(st, HeaderLine(g)) == st.(current := Some(g))
  {
    var h := HeaderLine(g);
    assert h[0] == '[' && h[|h| - 1] == ']';
    TrimIdentity(h);
    HeaderBrackets(g);
  }

  /** A written entry line, under an open group, sets that entry. */
  lemma LoadEntry(st: LoadState, g: string, k: string, v: string)
    requires st.current == Some(g) && GoodEntry(k, v)
    ensures LoadStep(st, EntryLine(k, v)) == st.(table := SetValue(st.table, g, k, v))
  {
    var line := EntryLine(k, v);
    assert line == k + ['='] + v;
    IndexOfAfter(k, '=', v);
    assert line[0] == if k == [] then '=' else k[0];
    assert line[|line| - 1] == if v == [] then '=' else v[|v| - 1];
    TrimIdentity(line);
    TrimIdentity(k);
    TrimIdentity(v);
    assert line[..|k|] == k;
    assert line[|k| + 1..] == v;
  }

  /** The table `load_ini` has built from a prefix of a group, as a table. */
  function Extend(pre: Table, g: string, es: Entries): Table {
    if es == [] then pre else pre + [(g, es)]
  }

  /** Entries arriving in ascending order, for the last group, are appended. */
  lemma SetValueExtend(pre: Table, g: string, es: Entries, k: string, v: string)
    requires AllBelow(pre, g) && AllBelow(es, k)
    ensures SetValue(Extend(pre, g, es), g, k, v) == Extend(pre, g, es + [(k, v)])
  {
    if es == [] {
      FindAbsent(pre, g);
      assert FindOr(pre, g, []) == [];
      assert Put([], k, v) == [(k, v)];
      PutAbove(pre, g, [(k, v)]);
      assert es + [(k, v)] == [(k, v)];
    } else {
      FindLast(pre, g, es);
      PutAbove(es, k, v);
      PutOnLast(pre, g, es, es + [(k, v)]);
    }
  }

  /** The last entry line of a group is read after the others. */
  lemma LoadEntriesLast(st: LoadState, es: Entries)
    requires es != []
    ensures var m := |es| - 1;
      LoadLines(st, EntryLines(es)) == LoadStep(LoadLines(st, EntryLines(es[..m])), EntryLine(es[m].0, es[m].1))
  {
    var m := |es| - 1;
    assert EntryLines(es)[..m] == EntryLines(es[..m]);
  }

  /** Dropping the last entry of a sorted group leaves it sorted and below that entry's key. */
  lemma SortedLast(es: Entries)
    requires es != [] && Sorted(es)
    ensures Sorted(es[..|es| - 1]) && AllBelow(es[..|es| - 1], es[|es| - 1].0)
  {
  }

  /** One more entry line, for a key above the others, appends that entry to the last group. */
  lemma LoadEntriesStep(pre: Table, g: string, init: Entries, k: string, v: string)
    requires AllBelow(pre, g) && AllBelow(init, k) && GoodEntry(k, v)
    requires LoadLines(LoadState(pre, Some(g)), EntryLines(init)) == LoadState(Extend(pre, g, init), Some(g))
    ensures LoadLines(LoadState(pre, Some(g)), EntryLines(init + [(k, v)]))
      == LoadState(Extend(pre, g, init + [(k, v)]), Some(g))
  {
    var es := init + [(k, v)];
    assert es[..|es| - 1] == init;
    LoadEntriesLast(LoadState(pre, Some(g)), es);
    LoadEntry(LoadState(Extend(pre, g, init), Some(g)), g, k, v);
    SetValueExtend(pre, g, init, k, v);
  }

  /** Dropping the last entry of a group of good entries leaves good entries. */
  lemma GoodEntriesLast(es: Entries)
    requires es != [] && forall e :: e in es ==> GoodEntry(e.0, e.1)
    ensures forall e :: e in es[..|es| - 1] ==> GoodEntry(e.0, e.1)
    ensures GoodEntry(es[|es| - 1].0, es[|es| - 1].1)
  {
    assert es[|es| - 1] in es;
    assert forall e :: e in es[..|es| - 1] ==> e in es;
  }

  lemma {:induction false} LoadEntries(pre: Table, g: string, es: Entries)
    requires AllBelow(pre, g) && Sorted(es)
    requires forall e :: e in es ==> GoodEntry(e.0, e.1)
    ensures LoadLines(LoadState(pre, Some(g)), EntryLines(es)) == LoadState(Extend(pre, g, es), Some(g))
    decreases |es|
  {
    if es != [] {
      var m := |es| - 1;
      var init := es[..m];
      SortedLast(es);
      GoodEntriesLast(es);
      LoadEntries(pre, g, init);
      LoadEntriesStep(pre, g, init, es[m].0, es[m].1);
      SeqDropLast(es);
    }
  }

  /** Reading the lines of one more group, above the others, appends that group. */
  lemma LoadGroup(pre: Table, st: LoadState, g: string, es: Entries)
    requires st.table == pre && AllBelow(pre, g) && GoodGroup(g) && es != [] && Sorted(es)
    requires forall e :: e in es ==> GoodEntry(e.0, e.1)
    ensures LoadLines(st, GroupLines(g, es)).table == pre + [(g, es)]
  {
    LoadLinesAppend(st, [HeaderLine(g)], EntryLines(es));
    assert [HeaderLine(g)][..0] == [];
    LoadHeader(st, g);
    assert st.(current := Some(g)) == LoadState(pre, Some(g));
    LoadEntries(pre, g, es);
  }

  /** The last group of a well-formed table is good and above the groups before it. */
  lemma WellformedLast(t: Table)
    requires t != [] && Wellformed(t)
    ensures var n := |t| - 1;
      && Wellformed(t[..n]) && AllBelow(t[..n], t[n].0) && GoodGroup(t[n].0)
      && t[n].1 != [] && Sorted(t[n].1) && forall e :: e in t[n].1 ==> GoodEntry(e.0, e.1)
  {
    var n := |t| - 1;
    WellformedPrefix(t, n);
    assert t[n] in t;
  }

  lemma {:induction false} LoadTableLines(t: Table)
    requires Wellformed(t)
    ensures LoadLines(Start, TableLines(t)).table == t
    decreases |t|
  {
    if t != [] {
      var n := |t| - 1;
      WellformedLast(t);
      LoadTableLines(t[..n]);
      LoadLinesAppend(Start, TableLines(t[..n]), GroupLines(t[n].0, t[n].1));
      LoadGroup(t[..n], LoadLines(Start, TableLines(t[..n])), t[n].0, t[n].1);
      SeqDropLast(t);
    }
  }

  /** Loading the text `save_ini` writes for a well-formed table gives the table back. */
  lemma SaveLoadRoundTrip(t: Table)
    requires Wellformed(t)
    ensures LoadTable(Some(RenderTable(t))) == t
  {
    RenderTableLines(t);
    TableLinesAreLines(t);
    LinesUnlines(TableLines(t));
    LoadTableLines(t);
  }

  // ----- what load_ini builds ------------------------------------------------

  predicate GoodState(st: LoadState) {
    Wellformed(st.table) && (st.current.Some? ==> GoodGroup(st.current.value))
  }

  /** `ini_set` of a good entry in a good group keeps a table well-formed. */
  lemma SetValueWellformed(t: Table, g: string, k: string, v: string)
    requires Wellformed(t) && GoodGroup(g) && GoodEntry(k, v)
    ensures Wellformed(SetValue(t, g, k, v))
  {
    SetValueValid(t, g, k, v);
    var es := FindOr(t, g, []);
    FindMember(t, g);
    assert forall e :: e in es ==> GoodEntry(e.0, e.1);
    PutPairs(es, k, v);
    PutPairs(t, g, Put(es, k, v));
  }

  /** The entry `load_ini` reads from a line it does not skip. */
  lemma ReadEntryGood(line: string)
    requires Trim(line) == line && '\n' !in line && '=' in line
    requires !IsSkipped(line) && !IsHeader(line)
    ensures var eq := IndexOf(line, '=');
      GoodEntry(Trim(line[..eq]), Trim(line[eq + 1..]))
  {
    var eq := IndexOf(line, '=');
    var kr, vr := line[..eq], line[eq + 1..];
    var k, v := Trim(kr), Trim(vr);
    TrimIdentity(line);
    var i1, j1 := TrimIsInfix(kr);
    var i2, j2 := TrimIsInfix(vr);
    assert '\n' !in kr && '\n' !in vr;
    TrimKeepsAbsent(kr, '\n');
    TrimKeepsAbsent(kr, '=');
    TrimKeepsAbsent(vr, '\n');
    if k != [] {
      assert kr != [] && kr[0] == line[0];
      TrimKeepsFirst(kr);
    }
    if v != [] {
      assert vr != [] && vr[|vr| - 1] == line[|line| - 1];
      TrimKeepsLast(vr);
    }
    var e := EntryLine(k, v);
    assert e == k + ['='] + v;
    assert e[0] == if k == [] then '=' else k[0];
    assert e[|e| - 1] == if v == [] then '=' else v[|v| - 1];
  }

  lemma LoadStepGood(st: LoadState, raw: string)
    requires GoodState(st) && '\n' !in raw
    ensures GoodState(LoadStep(st, raw))
  {
    var line := Trim(raw);
    TrimKeepsAbsent(raw, '\n');
    TrimIdempotent(raw);
    if !IsSkipped(line) {
      if IsHeader(line) {
        TrimBracketsGood(line);
      } else if '=' in line && st.current.Some? {
        var eq := IndexOf(line, '=');
        ReadEntryGood(line);
        SetValueWellformed(st.table, st.current.value, Trim(line[..eq]), Trim(line[eq + 1..]));
      }
    }
  }

  lemma {:induction false} LoadLinesGood(st: LoadState, lines: seq<string>)
    requires GoodState(st) && forall i :: 0 <= i < |lines| ==> '\n' !in lines[i]
    ensures GoodState(LoadLines(st, lines))
    decreases |lines|
  {
    if lines != [] {
      var m := |lines| - 1;
      LoadLinesGood(st, lines[..m]);
      LoadStepGood(LoadLines(st, lines[..m]), lines[m]);
    }
  }

  /**
   * Every table `load_ini` returns is well-formed: both levels sorted, no
   * empty group, and every name and entry one that `save_ini` writes back
   * faithfully.
   */
  lemma LoadedWellformed(contents: Option<string>)
    ensures Wellformed(LoadTable(contents))
  {
    if contents.Some? {
      LinesNoNewline(contents.value);
      LoadLinesGood(Start, Lines(contents.value));
    }
  }

  /** Saving what was loaded and loading it again gives the same table. */
  lemma LoadSaveLoad(contents: Option<string>)
    ensures LoadTable(Some(RenderTable(LoadTable(contents)))) == LoadTable(contents)
  {
    LoadedWellformed(contents);
    SaveLoadRoundTrip(LoadTable(contents));
  }

  // ----- single lines ----------------------------------------------------------

  /**
   * Lines before the first group header are ignored: comments, blank lines
   * and entries alike, as long as none of them is a header.
   */
  lemma {:induction false} PreambleIgnored(preamble: seq<string>, text: string)
    requires forall i :: 0 <= i < |preamble| ==> IsLine(preamble[i]) && !IsHeader(Trim(preamble[i]))
    ensures LoadTable(Some(Unlines(preamble) + text)) == LoadTable(Some(text))
  {
    LinesAfterUnlines(preamble, text);
    PreambleKeepsStart(preamble);
    LoadLinesAppend(Start, preamble, Lines(text));
  }

  lemma {:induction false} PreambleKeepsStart(preamble: seq<string>)
    requires forall i :: 0 <= i < |preamble| ==> !IsHeader(Trim(preamble[i]))
    ensures LoadLines(Start, preamble) == Start
    decreases |preamble|
  {
    if preamble != [] {
      PreambleKeepsStart(preamble[..|preamble| - 1]);
    }
  }

  /**
   * Under an open group, a "k = v" line sets `k` to `v` in that group,
   * overwriting an earlier value, and leaves every other entry alone.
   */
  lemma EntryLineOverwrites(st: LoadState, raw: string, g: string, k: string)
    requires st.current.Some? && '=' in Trim(raw)
    requires !IsSkipped(Trim(raw)) && !IsHeader(Trim(raw))
    ensures var line := Trim(raw);
      var eq := IndexOf(line, '=');
      var key := Trim(line[..eq]);
      Lookup(LoadStep(st, raw).table, g, k)
        == if g == st.current.value && k == key then Some(Trim(line[eq + 1..])) else Lookup(st.table, g, k)
  {
    var line := Trim(raw);
    var eq := IndexOf(line, '=');
    LookupSetValue(st.table, st.current.value, Trim(line[..eq]), Trim(line[eq + 1..]), g, k);
  }

  /** A comment or blank line changes nothing. */
  lemma SkippedLineIgnored(st: LoadState, raw: string)
    requires IsSkipped(Trim(raw))
    ensures LoadLines(st, [raw]) == st
  {
    assert [raw][..0] == [];
  }

  // ----- apply_kde_binding ---------------------------------------------------

  /**
   * After `apply_kde_binding`, reading the shortcuts file back gives exactly
   * the loaded table with the two binding entries set, provided the hotkey
   * text has no line break and does not start with white space.
   */
  lemma BindingPersists(contents: Option<string>, display: string)
    requires '\n' !in display && (display == [] || !IsWhitespace(display[0]))
    ensures LoadTable(Some(RenderTable(KdeBinding(LoadTable(contents), display))))
      == KdeBinding(LoadTable(contents), display)
  {
    var t := LoadTable(contents);
    LoadedWellformed(contents);
    ComponentGroupGood();
    FriendlyNameGood();
    TriggerGood(display);
    SetValueWellformed(t, ComponentGroup, FriendlyNameKey, AppName);
    SetValueWellformed(SetValue(t, ComponentGroup, FriendlyNameKey, AppName),
                       ComponentGroup, TriggerKey, TriggerValue(display));
    SaveLoadRoundTrip(KdeBinding(t, display));
  }

  lemma ComponentGroupGood()
    ensures GoodGroup(ComponentGroup)
  {
  }

  lemma FriendlyNameGood()
    ensures GoodEntry(FriendlyNameKey, AppName)
  {
  }

  lemma TriggerGood(display: string)
    requires '\n' !in display && (display == [] || !IsWhitespace(display[0]))
    ensures GoodEntry(TriggerKey, TriggerValue(display))
  {
    var v := TriggerValue(display);
    assert v[|v| - 1] == 'r';
    assert v[0] == if display == [] then ',' else display[0];
    assert '\n' !in ",none,Trigger";
  }
}
