/**
 * The Linux hotkey binder (src/platform/linux/mod.rs): which desktop
 * environment is running, judged from `XDG_CURRENT_DESKTOP` and then
 * `DESKTOP_SESSION`, and the dispatch to the GNOME or KDE binding.
 *
 * The two environment variables are inputs (`None` when unset or not
 * Unicode); the GNOME and KDE bindings are the outcomes they would report.
 */
module LinuxPlatform {
  import opened Wrappers
  import opened Strings

  datatype DesktopEnvironment = Gnome | Kde | Unknown

  /** `var(..).unwrap_or_default().to_ascii_lowercase()`. */
  function EnvValue(v: Option<string>): string {
    match v
    case None => []
    case Some(s) => AsciiLower(s)
  }

  predicate NamesGnome(val: string) {
    Contains(val, "gnome")
  }

  predicate NamesKde(val: string) {
    Contains(val, "kde") || Contains(val, "plasma")
  }

  /**
   * `detect_de`: "gnome" in the lower-cased `XDG_CURRENT_DESKTOP` means
   * GNOME, otherwise "kde" or "plasma" there means KDE; only when it names
   * neither is `DESKTOP_SESSION` read, by the same two rules.
   */
  function DetectDe(xdgCurrentDesktop: Option<string>, desktopSession: Option<string>): DesktopEnvironment {
    var val := EnvValue(xdgCurrentDesktop);
    if NamesGnome(val) then Gnome
    else if NamesKde(val) then Kde
    else
      var val2 := EnvValue(desktopSession);
      if NamesGnome(val2) then Gnome
      else if NamesKde(val2) then Kde
      else Unknown
  }

  /**
   * The verdict case by case: GNOME wins over KDE within a variable, and
   * the first variable wins over the second whenever it names either.
   */
  lemma DetectDeCases(xdg: Option<string>, session: Option<string>)
    ensures var x, s := EnvValue(xdg), EnvValue(session);
      && (DetectDe(xdg, session) == Gnome <==> NamesGnome(x) || (!NamesKde(x) && NamesGnome(s)))
      && (DetectDe(xdg, session) == Kde <==>
            !NamesGnome(x) && (NamesKde(x) || (!NamesGnome(s) && NamesKde(s))))
      && (DetectDe(xdg, session) == Unknown <==>
            !NamesGnome(x) && !NamesKde(x) && !NamesGnome(s) && !NamesKde(s))
  {
  }

  /** `DESKTOP_SESSION` is consulted only when `XDG_CURRENT_DESKTOP` names neither desktop. */
  lemma SessionOnlyAsFallback(xdg: Option<string>, session1: Option<string>, session2: Option<string>)
    requires NamesGnome(EnvValue(xdg)) || NamesKde(EnvValue(xdg))
    ensures DetectDe(xdg, session1) == DetectDe(xdg, session2)
  {
  }

  /** The names are compared in lower case: "GNOME" and "KDE" count. */
  lemma DetectUpperCase()
    ensures DetectDe(Some("GNOME"), None) == Gnome
    ensures DetectDe(None, Some("KDE")) == Kde
  {
    assert AsciiLower("GNOME") == "gnome";
    assert StartsWith("gnome", "gnome");
    assert AsciiLower("KDE") == "kde";
    assert StartsWith("kde", "kde");
  }

  /** Nothing set at all is an unknown desktop. */
  lemma DetectNothingSet()
    ensures DetectDe(None, None) == Unknown
  {
  }

  const UnsupportedDesktop := "Unsupported Linux desktop environment for automatic binding"

  /**
   * `LinuxBinder::apply_hotkey`: the binding for the detected desktop, or an
   * error for an unknown one. `gnomeBinding` and `kdeBinding` are what
   * `apply_gnome_binding` and `apply_kde_binding` return for the hotkey.
   */
  function ApplyHotkey(de: DesktopEnvironment, display: string,
                       gnomeBinding: string -> Result<Unit>, kdeBinding: string -> Result<Unit>): (r: Result<Unit>)
    ensures de == Unknown ==> r == Err("Unsupported Linux desktop environment for automatic binding")
  {
    match de
    case Gnome => gnomeBinding(display)
    case Kde => kdeBinding(display)
    case Unknown => Err(UnsupportedDesktop)
  }

  /** Each desktop gets its own binding and its result, whatever the other would have done. */
  lemma ApplyHotkeyDispatch(de: DesktopEnvironment, display: string,
                            gnome1: string -> Result<Unit>, gnome2: string -> Result<Unit>,
                            kde1: string -> Result<Unit>, kde2: string -> Result<Unit>)
    ensures de == Gnome ==> (ApplyHotkey(de, display, gnome1, kde1) == gnome1(display)
      && ApplyHotkey(de, display, gnome1, kde1) == ApplyHotkey(de, display, gnome1, kde2))
    ensures de == Kde ==> (ApplyHotkey(de, display, gnome1, kde1) == kde1(display)
      && ApplyHotkey(de, display, gnome1, kde1) == ApplyHotkey(de, display, gnome2, kde1))
    ensures ApplyHotkey(de, display, gnome1, kde1).Ok? ==> de != Unknown
  {
  }

  /** `LinuxBinder::remove_hotkey`: there is nothing to undo, so it always succeeds. */
  function RemoveHotkey(): (r: Result<Unit>)
    ensures r.Ok?
  {
    Ok(Unit)
  }
}
