/**
 * `setColor` and `initialCleanup`: how the extension rewrites the host's
 * `workbench.colorCustomizations` map and at which configuration target it writes it.
 */
module ColorSettings {
  import opened JsValues
  import opened RuleMatching

  /** `vscode.ConfigurationTarget.Workspace` and `.Global`. */
  datatype Scope = Workspace | Global

  /** The extension's own settings as `getConfiguration().get` returns them. */
  datatype ExtensionConfig = ExtensionConfig(
    rules: Option<seq<Rule>>,   // sf-colorg.rules
    settingsScope: Value,       // sf-colorg.target.settingsScope
    statusBar: Value,           // sf-colorg.target.statusBar
    activityBar: Value)         // sf-colorg.target.activityBar

  /** One `update('workbench.colorCustomizations', value, target)` call. */
  datatype Update = Update(value: map<string, Value>, target: Scope)

  const StatusBarBackground := "statusBar.background"
  const ActivityBarBackground := "activityBar.background"

  /** The only customization keys the extension writes. */
  const Owned: set<string> := {StatusBarBackground, ActivityBarBackground}

  /** `(settingsScope || 'workspace') === 'workspace' ? Workspace : Global`. */
  function ResolveScope(setting: Value): (scope: Scope)
    ensures scope == Workspace <==> !Truthy(setting) || setting == Str("workspace")
    ensures scope == Global <==> Truthy(setting) && setting != Str("workspace")
  {
    var chosen := if Truthy(setting) then setting else Str("workspace");
    if chosen == Str("workspace") then Workspace else Global
  }

  /** The value one owned key receives: `enabled || color == null ? color : undefined`. */
  function OwnedValue(enabled: bool, color: Value): Value {
    if enabled || IsNullish(color) then color else Undefined
  }

  /** The customization map after the two assignments of `setColor`. */
  function Recolored(m: map<string, Value>, color: Value, statusBar: bool, activityBar: bool): map<string, Value> {
    m[StatusBarBackground := OwnedValue(statusBar, color)][ActivityBarBackground := OwnedValue(activityBar, color)]
  }

  /** The customization map after the two assignments of `initialCleanup`. */
  function Cleared(m: map<string, Value>): map<string, Value> {
    m[StatusBarBackground := Undefined][ActivityBarBackground := Undefined]
  }

  /** The map `setColor` leaves behind: unchanged without an active editor. */
  function AfterSetColor(m: map<string, Value>, color: Value, config: ExtensionConfig, hasActiveEditor: bool): map<string, Value> {
    if hasActiveEditor then Recolored(m, color, Truthy(config.statusBar), Truthy(config.activityBar)) else m
  }

  /** The writes `setColor` issues: one, at the resolved scope, or none without an active editor. */
  function SetColorWrites(m: map<string, Value>, color: Value, config: ExtensionConfig, hasActiveEditor: bool): seq<Update> {
    if hasActiveEditor then [Update(AfterSetColor(m, color, config, hasActiveEditor), ResolveScope(config.settingsScope))] else []
  }

  /** The two maps agree on every key the extension does not own. */
  ghost predicate SameForeignEntries(m: map<string, Value>, m': map<string, Value>) {
    && m.Keys - Owned == m'.Keys - Owned
    && forall k :: k in m && k !in Owned ==> k in m' && m'[k] == m[k]
  }

  /** Each owned key: an enabled surface shows the color, a `null`/`undefined` color is
      written through as it is, and a disabled surface with a real color is set to
      `undefined`; so a color string is shown only on an enabled surface. */
  lemma OwnedValueCases(enabled: bool, color: Value)
    ensures enabled ==> OwnedValue(enabled, color) == color
    ensures IsNullish(color) ==> OwnedValue(enabled, color) == color
    ensures !enabled && !IsNullish(color) ==> OwnedValue(enabled, color) == Undefined
    ensures OwnedValue(enabled, color).Str? ==> enabled && OwnedValue(enabled, color) == color
  {
  }

  /** `setColor` writes both owned keys and keeps every other key as it was. */
  lemma RecoloredKeepsForeignKeys(m: map<string, Value>, color: Value, statusBar: bool, activityBar: bool)
    ensures Recolored(m, color, statusBar, activityBar).Keys == m.Keys + Owned
    ensures SameForeignEntries(m, Recolored(m, color, statusBar, activityBar))
    ensures Recolored(m, color, statusBar, activityBar)[StatusBarBackground] == OwnedValue(statusBar, color)
    ensures Recolored(m, color, statusBar, activityBar)[ActivityBarBackground] == OwnedValue(activityBar, color)
  {
  }

  /** `initialCleanup` sets both owned keys to `undefined` and keeps every other key. */
  lemma ClearedKeepsForeignKeys(m: map<string, Value>)
    ensures Cleared(m).Keys == m.Keys + Owned
    ensures SameForeignEntries(m, Cleared(m))
    ensures Cleared(m)[StatusBarBackground] == Undefined && Cleared(m)[ActivityBarBackground] == Undefined
  {
  }

  /** The cleanup is `setColor(undefined)` whatever the toggles. */
  lemma ClearedIsRecoloredUndefined(m: map<string, Value>, statusBar: bool, activityBar: bool)
    ensures Cleared(m) == Recolored(m, Undefined, statusBar, activityBar)
  {
  }

  /** `setColor(null)`, as on deactivation, writes `null` to both keys whatever the toggles. */
  lemma RecoloredNull(m: map<string, Value>, statusBar: bool, activityBar: bool)
    ensures Recolored(m, Null, statusBar, activityBar)[StatusBarBackground] == Null
    ensures Recolored(m, Null, statusBar, activityBar)[ActivityBarBackground] == Null
  {
  }

  /** Applying `setColor` twice with the same inputs gives the map of one application,
      and the second write carries the same value and target as the first. */
  lemma AfterSetColorIdempotent(m: map<string, Value>, color: Value, config: ExtensionConfig, hasActiveEditor: bool)
    ensures AfterSetColor(AfterSetColor(m, color, config, hasActiveEditor), color, config, hasActiveEditor)
         == AfterSetColor(m, color, config, hasActiveEditor)
    ensures SetColorWrites(AfterSetColor(m, color, config, hasActiveEditor), color, config, hasActiveEditor)
         == SetColorWrites(m, color, config, hasActiveEditor)
  {
  }

  /** A later `setColor` overrides whatever the cleanup wrote. */
  lemma RecoloredAfterCleared(m: map<string, Value>, color: Value, statusBar: bool, activityBar: bool)
    ensures Recolored(Cleared(m), color, statusBar, activityBar) == Recolored(m, color, statusBar, activityBar)
  {
  }

  /** A cleanup forgets whatever `setColor` wrote. */
  lemma ClearedAfterRecolored(m: map<string, Value>, color: Value, statusBar: bool, activityBar: bool)
    ensures Cleared(Recolored(m, color, statusBar, activityBar)) == Cleared(m)
  {
  }

  /** A concrete case: status bar off, activity bar on, a color string. */
  lemma MixedTogglesExample(m: map<string, Value>)
    ensures Recolored(m, Str("#123456"), false, true)[StatusBarBackground] == Undefined
    ensures Recolored(m, Str("#123456"), false, true)[ActivityBarBackground] == Str("#123456")
  {
  }

  /**
   * The host's configuration as far as the extension touches it: the value that
   * `get('workbench.colorCustomizations')` returns, which the extension mutates in place,
   * and the record of the `update` calls it issued. The model takes each update to be
   * visible to the next `get`.
   */
  class SettingsStore {
    var colorCustomizations: map<string, Value>
    var updates: seq<Update>

    constructor (initial: map<string, Value>)
      ensures colorCustomizations == initial && updates == []
    {
      colorCustomizations := initial;
      updates := [];
    }

    /** `setColor(color)`. */
    method SetColor(color: Value, config: ExtensionConfig, hasActiveEditor: bool)
      modifies this
      ensures colorCustomizations == AfterSetColor(old(colorCustomizations), color, config, hasActiveEditor)
      ensures updates == old(updates) + SetColorWrites(old(colorCustomizations), color, config, hasActiveEditor)
      ensures !hasActiveEditor ==> colorCustomizations == old(colorCustomizations) && updates == old(updates)
    {
      var target := ResolveScope(config.settingsScope);
      var statusBar := Truthy(config.statusBar);
      var activityBar := Truthy(config.activityBar);
      if hasActiveEditor {
        if statusBar || IsNullish(color) {
          colorCustomizations := colorCustomizations[StatusBarBackground := color];
        } else {
          colorCustomizations := colorCustomizations[StatusBarBackground := Undefined];
        }
        if activityBar || IsNullish(color) {
          colorCustomizations := colorCustomizations[ActivityBarBackground := color];
        } else {
          colorCustomizations := colorCustomizations[ActivityBarBackground := Undefined];
        }
        updates := updates + [Update(colorCustomizations, target)];
      }
    }

    /** `initialCleanup()`: always written at the Global target. */
    method InitialCleanup()
      modifies this
      ensures colorCustomizations == Cleared(old(colorCustomizations))
      ensures updates == old(updates) + [Update(colorCustomizations, Global)]
    {
      colorCustomizations := colorCustomizations[StatusBarBackground := Undefined];
      colorCustomizations := colorCustomizations[ActivityBarBackground := Undefined];
      updates := updates + [Update(colorCustomizations, Global)];
    }
  }
}
