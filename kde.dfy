/**
 * KDE's `kglobalshortcutsrc` as src/platform/linux/kde.rs reads, edits and
 * writes it: a two-level table, group name to key to value, held as a
 * `BTreeMap` of `BTreeMap`s. The file itself is outside the model: loading
 * starts from the file's text (or from nothing when it cannot be read) and
 * saving produces the text to be written.
 */
module Kde {
  import opened Wrappers
  import opened Strings
  import opened OrderedMaps

  /** One group's entries, key to value, in ascending key order. */
  type Entries = seq<(string, string)>

  /** `Ini`: group name to entries, in ascending group order. */
  type Table = seq<(string, Entries)>

  /** A table as a `BTreeMap` of `BTreeMap`s holds it: both levels sorted, no group without entries. */
  predicate ValidTable(t: Table) {
    && Sorted(t)
    && forall i :: 0 <= i < |t| ==> Sorted(t[i].1) && t[i].1 != []
  }

  /** `ini[group][key]`, if there is one. */
  function Lookup(t: Table, group: string, key: string): Option<string> {
    match Find(t, group)
    case None => None
    case Some(es) => Find(es, key)
  }

  // ----- ini_set -----------------------------------------------------------

  /** What `ini_set` leaves in the table: `ini.entry(group).or_default().insert(key, value)`. */
  function SetValue(t: Table, group: string, key: string, value: string): Table {
    Put(t, group, Put(FindOr(t, group, []), key, value))
  }

  /**
   * After `ini_set`, the entry holds the new value and every other entry of
   * every group, the same group included, is as before.
   */
  lemma LookupSetValue(t: Table, group: string, key: string, value: string, g: string, k: string)
    ensures Lookup(SetValue(t, group, key, value), g, k)
      == if g == group && k == key then Some(value) else Lookup(t, g, k)
  {
    var es := FindOr(t, group, []);
    FindPut(t, group, Put(es, key, value), g);
    FindPut(es, key, value, k);
  }

  /** `ini_set` keeps both levels sorted and creates a group only together with an entry. */
  lemma SetValueValid(t: Table, group: string, key: string, value: string)
    requires ValidTable(t)
    ensures ValidTable(SetValue(t, group, key, value))
  {
    var es := FindOr(t, group, []);
    FindIn(t, group);
    assert Sorted(es);
    PutSorted(es, key, value);
    PutSorted(t, group, Put(es, key, value));
    PutNonEmpty(es, key, value);
    var r := Put(t, group, Put(es, key, value));
    PutPairs(t, group, Put(es, key, value));
    forall i | 0 <= i < |r| ensures Sorted(r[i].1) && r[i].1 != [] {
      assert r[i] in r;
      if r[i] != (group, Put(es, key, value)) {
        var j :| 0 <= j < |t| && t[j] == r[i];
      }
    }
  }

  lemma {:induction false} FindIn(t: Table, group: string)
    requires ValidTable(t)
    ensures Find(t, group).Some? ==> Sorted(Find(t, group).value) && Find(t, group).value != []
    decreases |t|
  {
    if t != [] && t[0].0 != group {
      assert ValidTable(t[1..]) by {
        assert forall i, j :: 0 <= i < j < |t[1..]| ==> t[1..][i] == t[i + 1] && t[1..][j] == t[j + 1];
      }
      FindIn(t[1..], group);
    }
  }

  lemma PutNonEmpty(es: Entries, key: string, value: string)
    ensures Put(es, key, value) != []
  {
  }

  /** The table `load_ini`, `ini_set` and `save_ini` pass around (`&mut Ini`). */
  class Ini {
    var table: Table

    constructor ()
      ensures table == []
    {
      table := [];
    }

    /** `ini_set`. */
    method Set(group: string, key: string, value: string)
      modifies this
      ensures table == SetValue(old(table), group, key, value)
    {
      var entries := FindOr(table, group, []);
      entries := Put(entries, key, value);
      table := Put(table, group, entries);
    }
  }

  // ----- load_ini ----------------------------------------------------------

  predicate IsBracket(c: char) { c == '[' || c == ']' }

  function TrimStartBrackets(s: string): string
    decreases |s|
  {
    if |s| > 0 && IsBracket(s[0]) then TrimStartBrackets(s[1..]) else s
  }

  function TrimEndBrackets(s: string): string
    decreases |s|
  {
    if |s| > 0 && IsBracket(s[|s| - 1]) then TrimEndBrackets(s[..|s| - 1]) else s
  }

  /** `trim_matches(&['[', ']'])`: every bracket at either end removed. */
  function TrimBrackets(s: string): string {
    TrimEndBrackets(TrimStartBrackets(s))
  }

  /** The loop state of `load_ini`: the table so far and the current group. */
  datatype LoadState = LoadState(table: Table, current: Option<string>)

  const Start := LoadState([], None)

  predicate IsSkipped(line: string) {
    line == [] || StartsWithChar(line, '#') || StartsWithChar(line, ';')
  }

  predicate IsHeader(line: string) {
    StartsWithChar(line, '[') && EndsWithChar(line, ']')
  }

  /**
   * One line of `load_ini`, trimmed first: blank lines and comments are
   * skipped, a "[...]" line opens a group, and a line with '=' under an open
   * group sets the trimmed key before the first '=' to the trimmed rest.
   */
  function LoadStep(st: LoadState, raw: string): LoadState {
    var line := Trim(raw);
    if IsSkipped(line) then st
    else if IsHeader(line) then st.(current := Some(TrimBrackets(line)))
    else if '=' in line then
      match st.current
      case None => st
      case Some(group) =>
        var eq := IndexOf(line, '=');
        st.(table := SetValue(st.table, group, Trim(line[..eq]), Trim(line[eq + 1..])))
    else st
  }

  /** The loop over the given lines. */
  function LoadLines(st: LoadState, lines: seq<string>): LoadState
    decreases |lines|
  {
    if lines == [] then st
    else LoadStep(LoadLines(st, lines[..|lines| - 1]), lines[|lines| - 1])
  }

  /** What `load_ini` returns for the file's text, or for an unreadable file. */
  function LoadTable(contents: Option<string>): Table {
    match contents
    case None => []
    case Some(text) => LoadLines(Start, Lines(text)).table
  }

  lemma LoadLinesSnoc(st: LoadState, lines: seq<string>, i: nat)
    requires i < |lines|
    ensures LoadLines(st, lines[..i + 1]) == LoadStep(LoadLines(st, lines[..i]), lines[i])
  {
    assert lines[..i + 1][..i] == lines[..i];
  }

  /** `load_ini`. */
  method LoadIni(contents: Option<string>) returns (ini: Ini)
    ensures fresh(ini) && ini.table == LoadTable(contents)
  {
    ini := new Ini();
    if contents.None? {
      return;
    }
    var lines := Lines(contents.value);
    var currentGroup: Option<string> := None;
    for i := 0 to |lines|
      invariant LoadLines(Start, lines[..i]) == LoadState(ini.table, currentGroup)
    {
      LoadLinesSnoc(Start, lines, i);
      var line := Trim(lines[i]);
      if IsSkipped(line) {
        continue;
      }
      if StartsWithChar(line, '[') && EndsWithChar(line, ']') {
        currentGroup := Some(TrimBrackets(line));
      } else if '=' in line {
        if currentGroup.Some? {
          var eq := IndexOf(line, '=');
          var k := Trim(line[..eq]);
          var v := Trim(line[eq + 1..]);
          ini.Set(currentGroup.value, k, v);
        }
      }
    }
    assert lines[..|lines|] == lines;
  }

  // ----- save_ini ----------------------------------------------------------

  function EntryLine(key: string, value: string): string {
    key + "=" + value
  }

  function HeaderLine(group: string): string {
    "[" + group + "]"
  }

  function EntryText(key: string, value: string): string {
    EntryLine(key, value) + "\n"
  }

  function HeaderText(group: string): string {
    HeaderLine(group) + "\n"
  }

  /** The "k=v\n" lines of a group, in the group's order. */
  function RenderEntries(es: Entries): string
    decreases |es|
  {
    if es == [] then []
    else RenderEntries(es[..|es| - 1]) + EntryText(es[|es| - 1].0, es[|es| - 1].1)
  }

  /** A group's "[g]\n" line followed by its entries. */
  function GroupText(group: string, es: Entries): string {
    HeaderText(group) + RenderEntries(es)
  }

  /** What `save_ini` writes: every group's text, in table order. */
  function RenderTable(t: Table): string
    decreases |t|
  {
    if t == [] then []
    else RenderTable(t[..|t| - 1]) + GroupText(t[|t| - 1].0, t[|t| - 1].1)
  }

  lemma Reassociate(a: string, b: string, c: string)
    ensures (a + b) + c == a + (b + c)
  {
  }

  /** Pushing '[', the name and "]\n" appends the header line. */
  lemma PushHeader(out: string, group: string)
    ensures out + ['['] + group + "]\n" == out + HeaderText(group)
  {
  }

  /** Pushing the key, '=', the value and '\n' appends the entry line. */
  lemma PushEntry(out: string, key: string, value: string)
    ensures out + key + ['='] + value + ['\n'] == out + EntryText(key, value)
  {
  }

  lemma RenderTableSnoc(t: Table, i: nat)
    requires i < |t|
    ensures RenderTable(t[..i + 1]) == RenderTable(t[..i]) + GroupText(t[i].0, t[i].1)
  {
    assert t[..i + 1][..i] == t[..i];
  }

  lemma RenderEntriesSnoc(es: Entries, j: nat)
    requires j < |es|
    ensures RenderEntries(es[..j + 1]) == RenderEntries(es[..j]) + EntryText(es[j].0, es[j].1)
  {
    assert es[..j + 1][..j] == es[..j];
  }

  /** `save_ini`, up to the write: the text it writes for the table. */
  method SaveIni(ini: Ini) returns (out: string)
    ensures out == RenderTable(ini.table)
  {
    var t := ini.table;
    out := [];
    for i := 0 to |t|
      invariant out == RenderTable(t[..i])
    {
      RenderTableSnoc(t, i);
      var group := t[i].0;
      var entries := t[i].1;
      ghost var before := out;
      out := out + ['['];
      out := out + group;
      out := out + "]\n";
      PushHeader(before, group);
      ghost var head := out;
      for j := 0 to |entries|
        invariant out == head + RenderEntries(entries[..j])
      {
        RenderEntriesSnoc(entries, j);
        var (k, v) := entries[j];
        ghost var prev := out;
        out := out + k;
        out := out + ['='];
        out := out + v;
        out := out + ['\n'];
        PushEntry(prev, k, v);
        Reassociate(head, RenderEntries(entries[..j]), EntryText(k, v));
      }
      assert entries[..|entries|] == entries;
      Reassociate(before, HeaderText(group), RenderEntries(entries));
    }
    assert t[..|t|] == t;
  }

  // ----- apply_kde_binding ------------------------------------------------

  /** The component group of the program's shortcut. */
  const ComponentGroup := "keyboard_map_shift.desktop"
  const FriendlyNameKey := "_k_friendly_name"
  const TriggerKey := "Trigger"
  const AppName := "Keyboard Map Shift"

  /** The value of the trigger entry: the hotkey, no alternative, and the action's name. */
  function TriggerValue(display: string): string {
    display + ",none,Trigger"
  }

  /** The two entries `apply_kde_binding` sets. */
  function KdeBinding(t: Table, display: string): Table {
    SetValue(SetValue(t, ComponentGroup, FriendlyNameKey, AppName), ComponentGroup, TriggerKey, TriggerValue(display))
  }

  /**
   * The table part of `apply_kde_binding`: load the shortcuts file, set the
   * friendly name and the trigger in the component group, and produce the
   * text to write back.
   */
  method ApplyKdeBinding(contents: Option<string>, display: string) returns (out: string)
    ensures out == RenderTable(KdeBinding(LoadTable(contents), display))
  {
    var ini := LoadIni(contents);
    ini.Set(ComponentGroup, FriendlyNameKey, AppName);
    ini.Set(ComponentGroup, TriggerKey, TriggerValue(display));
    out := SaveIni(ini);
  }

  /**
   * The binding names the program and carries the hotkey in the component
   * group; every other entry is as it was.
   */
  lemma KdeBindingEntries(t: Table, display: string, g: string, k: string)
    ensures Lookup(KdeBinding(t, display), ComponentGroup, FriendlyNameKey) == Some("Keyboard Map Shift")
    ensures Lookup(KdeBinding(t, display), ComponentGroup, TriggerKey) == Some(display + ",none,Trigger")
    ensures !(g == ComponentGroup && (k == FriendlyNameKey || k == TriggerKey)) ==>
      Lookup(KdeBinding(t, display), g, k) == Lookup(t, g, k)
  {
    var t1 := SetValue(t, ComponentGroup, FriendlyNameKey, AppName);
    LookupSetValue(t, ComponentGroup, FriendlyNameKey, AppName, ComponentGroup, FriendlyNameKey);
    LookupSetValue(t1, ComponentGroup, TriggerKey, TriggerValue(display), ComponentGroup, FriendlyNameKey);
    LookupSetValue(t1, ComponentGroup, TriggerKey, TriggerValue(display), ComponentGroup, TriggerKey);
    LookupSetValue(t, ComponentGroup, FriendlyNameKey, AppName, g, k);
    LookupSetValue(t1, ComponentGroup, TriggerKey, TriggerValue(display), g, k);
  }
}
