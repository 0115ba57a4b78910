/**
 * The extension's handlers: `handleFileContent`, `init` (run on activation and when the
 * `sf-colorg` settings change), the active-editor filter and `deactivate`. Host calls are
 * inputs: `findFiles` results are sequences of paths, the freshly loaded config file is
 * `env.read(path)`, and the host's settings are a `SettingsStore`.
 */
module Extension {
  import opened JsValues
  import opened RuleMatching
  import opened ColorSettings

  /** What the handlers read from the host at the time they run. */
  datatype Env = Env(
    config: ExtensionConfig,                // getConfiguration()
    engine: RegexEngine,                    // RegExp
    read: string -> map<string, string>,    // requireUncached(path), the parsed config file
    hasActiveEditor: bool)                  // vscode.window.activeTextEditor is set

  /** The outcome of the rule loop for the config file at `fsPath`. */
  function ColorFor(env: Env, fsPath: string): Outcome {
    FirstMatch(env.engine, RulesOrEmpty(env.config.rules), PropertyText(env.read(fsPath), IdentifierField(fsPath)))
  }

  /** The customization map after `handleFileContent(fsPath)`: untouched when the loop throws. */
  function AfterHandle(m: map<string, Value>, env: Env, fsPath: string): map<string, Value> {
    match ColorFor(env, fsPath)
    case Thrown => m
    case Resolved(c) => AfterSetColor(m, c, env.config, env.hasActiveEditor)
  }

  /** The writes `handleFileContent(fsPath)` issues. */
  function HandleWrites(m: map<string, Value>, env: Env, fsPath: string): seq<Update> {
    match ColorFor(env, fsPath)
    case Thrown => []
    case Resolved(c) => SetColorWrites(m, c, env.config, env.hasActiveEditor)
  }

  /** The file `init` handles: the first new-location result, else the first old-location
      result, else none. */
  function ConfigSource(newFiles: seq<string>, oldFiles: seq<string>): (source: Option<string>)
    ensures source.Some? <==> newFiles + oldFiles != []
    ensures source.Some? ==> source.value == (newFiles + oldFiles)[0]
    ensures source.Some? && newFiles != [] ==> source.value in newFiles
  {
    if |newFiles| > 0 then Some(newFiles[0])
    else if |oldFiles| > 0 then Some(oldFiles[0])
    else None
  }

  /** The customization map after `init`. */
  function AfterInit(m: map<string, Value>, env: Env, newFiles: seq<string>, oldFiles: seq<string>): map<string, Value> {
    match ConfigSource(newFiles, oldFiles)
    case None => Cleared(m)
    case Some(p) => AfterHandle(Cleared(m), env, p)
  }

  /** The writes `init` issues: the Global cleanup, then those of the handled file. */
  function InitWrites(m: map<string, Value>, env: Env, newFiles: seq<string>, oldFiles: seq<string>): seq<Update> {
    [Update(Cleared(m), Global)] +
    match ConfigSource(newFiles, oldFiles)
    case None => []
    case Some(p) => HandleWrites(Cleared(m), env, p)
  }

  /** The editor-change filter: the editor's path is one of the config files found. */
  function IsTracked(fsPath: string, newFiles: seq<string>, oldFiles: seq<string>): (tracked: bool)
    ensures tracked <==> fsPath in newFiles || fsPath in oldFiles
  {
    fsPath in newFiles + oldFiles
  }

  /** The old-location results are not consulted when a new-location file exists. */
  lemma NewLocationWins(newFiles: seq<string>, oldFiles: seq<string>, otherOldFiles: seq<string>)
    requires newFiles != []
    ensures ConfigSource(newFiles, oldFiles) == ConfigSource(newFiles, otherOldFiles) == Some(newFiles[0])
  {
  }

  /** With no config file found, `init` issues only the Global cleanup, whose value has
      both owned keys `undefined` and every other key as it was. */
  lemma InitWithoutConfigClears(m: map<string, Value>, env: Env, newFiles: seq<string>, oldFiles: seq<string>)
    requires newFiles == [] && oldFiles == []
    ensures AfterInit(m, env, newFiles, oldFiles)[StatusBarBackground] == Undefined
    ensures AfterInit(m, env, newFiles, oldFiles)[ActivityBarBackground] == Undefined
    ensures SameForeignEntries(m, AfterInit(m, env, newFiles, oldFiles))
    ensures InitWrites(m, env, newFiles, oldFiles) == [Update(AfterInit(m, env, newFiles, oldFiles), Global)]
  {
    ClearedKeepsForeignKeys(m);
  }

  /** `init` only ever touches the two owned keys. */
  lemma InitKeepsForeignKeys(m: map<string, Value>, env: Env, newFiles: seq<string>, oldFiles: seq<string>)
    ensures AfterInit(m, env, newFiles, oldFiles).Keys == m.Keys + Owned
    ensures SameForeignEntries(m, AfterInit(m, env, newFiles, oldFiles))
  {
    var c := Cleared(m);
    ClearedKeepsForeignKeys(m);
    match ConfigSource(newFiles, oldFiles)
    case None =>
    case Some(p) =>
      match ColorFor(env, p)
      case Thrown =>
      case Resolved(col) =>
        RecoloredKeepsForeignKeys(c, col, Truthy(env.config.statusBar), Truthy(env.config.activityBar));
  }

  /** Running `init` a second time with unchanged inputs leaves the map as the first run
      left it and repeats exactly the same writes. */
  lemma {:induction false} InitIdempotent(m: map<string, Value>, env: Env, newFiles: seq<string>, oldFiles: seq<string>)
    ensures AfterInit(AfterInit(m, env, newFiles, oldFiles), env, newFiles, oldFiles) == AfterInit(m, env, newFiles, oldFiles)
    ensures InitWrites(AfterInit(m, env, newFiles, oldFiles), env, newFiles, oldFiles) == InitWrites(m, env, newFiles, oldFiles)
  {
    var once := AfterInit(m, env, newFiles, oldFiles);
    assert Cleared(once) == Cleared(m) by {
      match ConfigSource(newFiles, oldFiles)
      case None =>
      case Some(p) =>
        if ColorFor(env, p).Resolved? && env.hasActiveEditor {
          ClearedAfterRecolored(Cleared(m), ColorFor(env, p).color,
                                Truthy(env.config.statusBar), Truthy(env.config.activityBar));
        }
    }
  }

  /** A missing `sf-colorg.rules` setting is the empty list (`RulesOrEmpty`), so the color
      handed to `setColor` is `null`. */
  lemma MissingRulesGiveNull(env: Env, fsPath: string)
    requires env.config.rules.None?
    ensures ColorFor(env, fsPath) == Resolved(Null)
  {
  }

  /** A file that lacks its identifier field is still tested (`PropertyText`): the rules
      are matched against the text "undefined", exactly as for a file whose field holds
      that text. */
  lemma MissingFieldTestedAsUndefined(env: Env, fsPath: string)
    requires IdentifierField(fsPath) !in env.read(fsPath)
    ensures ColorFor(env, fsPath) == FirstMatch(env.engine, RulesOrEmpty(env.config.rules), "undefined")
  {
  }

  /** In particular a catch-all rule colors a file that lacks its identifier field. */
  lemma MissingFieldStillMatched(env: Env, fsPath: string, r: Rule)
    requires IdentifierField(fsPath) !in env.read(fsPath)
    requires RulesOrEmpty(env.config.rules) == [r]
    requires env.engine.compiles(r.regex) && env.engine.test(r.regex, "undefined")
    ensures ColorFor(env, fsPath) == Resolved(r.color)
  {
  }

  /** `handleFileContent(uri)`, also what the file watchers call on change and create. */
  method HandleFileContent(store: SettingsStore, env: Env, fsPath: string) returns (outcome: Outcome)
    modifies store
    ensures outcome == ColorFor(env, fsPath)
    ensures store.colorCustomizations == AfterHandle(old(store.colorCustomizations), env, fsPath)
    ensures store.updates == old(store.updates) + HandleWrites(old(store.colorCustomizations), env, fsPath)
  {
    var file := env.read(fsPath);
    var targets := RulesOrEmpty(env.config.rules);
    var attribute := IdentifierField(fsPath);
    outcome := MatchRules(env.engine, targets, PropertyText(file, attribute));
    if outcome.Resolved? {
      store.SetColor(outcome.color, env.config, env.hasActiveEditor);
    }
  }

  /** `init()`: cleanup, then the new-location file if one was found, else the
      old-location file if one was found. An exception from the loop is caught. */
  method Init(store: SettingsStore, env: Env, newFiles: seq<string>, oldFiles: seq<string>) returns (source: Option<string>)
    modifies store
    ensures source == ConfigSource(newFiles, oldFiles)
    ensures store.colorCustomizations == AfterInit(old(store.colorCustomizations), env, newFiles, oldFiles)
    ensures store.updates == old(store.updates) + InitWrites(old(store.colorCustomizations), env, newFiles, oldFiles)
  {
    store.InitialCleanup();
    var files := newFiles;
    if |files| > 0 {
      source := Some(files[0]);
      var _ := HandleFileContent(store, env, files[0]);
    } else {
      files := oldFiles;
      if |files| > 0 {
        source := Some(files[0]);
        var _ := HandleFileContent(store, env, files[0]);
      } else {
        source := None;
      }
    }
  }

  /** The `onDidChangeActiveTextEditor` listener. */
  method OnDidChangeActiveTextEditor(store: SettingsStore, env: Env, editor: Option<string>,
                                     newFiles: seq<string>, oldFiles: seq<string>) returns (handled: bool)
    modifies store
    ensures handled <==> editor.Some? && IsTracked(editor.value, newFiles, oldFiles)
    ensures handled ==> (&& store.colorCustomizations == AfterHandle(old(store.colorCustomizations), env, editor.value)
                         && store.updates == old(store.updates) + HandleWrites(old(store.colorCustomizations), env, editor.value))
    ensures !handled ==> store.colorCustomizations == old(store.colorCustomizations) && store.updates == old(store.updates)
  {
    handled := false;
    if editor.Some? {
      var filePaths := newFiles + oldFiles;
      if editor.value in filePaths {
        handled := true;
        var _ := HandleFileContent(store, env, editor.value);
      }
    }
  }

  /** The `onDidChangeConfiguration` listener: `init` again when an `sf-colorg` setting changed. */
  method OnDidChangeConfiguration(store: SettingsStore, env: Env, affectsExtension: bool,
                                  newFiles: seq<string>, oldFiles: seq<string>)
    modifies store
    ensures affectsExtension ==> (&& store.colorCustomizations == AfterInit(old(store.colorCustomizations), env, newFiles, oldFiles)
                                  && store.updates == old(store.updates) + InitWrites(old(store.colorCustomizations), env, newFiles, oldFiles))
    ensures !affectsExtension ==> store.colorCustomizations == old(store.colorCustomizations) && store.updates == old(store.updates)
  {
    if affectsExtension {
      var _ := Init(store, env, newFiles, oldFiles);
    }
  }

  /** `deactivate()` after the watchers are disposed: `setColor(null)`, which with an
      active editor writes `null` to both owned keys whatever the toggles. */
  method Deactivate(store: SettingsStore, env: Env)
    modifies store
    ensures store.colorCustomizations == AfterSetColor(old(store.colorCustomizations), Null, env.config, env.hasActiveEditor)
    ensures store.updates == old(store.updates) + SetColorWrites(old(store.colorCustomizations), Null, env.config, env.hasActiveEditor)
    ensures env.hasActiveEditor ==> (&& store.colorCustomizations[StatusBarBackground] == Null
                                     && store.colorCustomizations[ActivityBarBackground] == Null)
  {
    store.SetColor(Null, env.config, env.hasActiveEditor);
    RecoloredNull(old(store.colorCustomizations), Truthy(env.config.statusBar), Truthy(env.config.activityBar));
  }
}
